/**
 * The section segmenter (`ResumeSegmenter`): a header classifier over a fixed,
 * ordered pattern table and a walk over the lines of a résumé that starts in
 * SUMMARY and files every body line under the section of the last header seen.
 *
 * Every header pattern is a plain lower-case literal, so the source's
 * `re.fullmatch(pattern, line)` is string equality here.
 */
module ResumeSegmenter {
  import opened Wrappers
  import opened Chars

  datatype Section = Contact | Experience | Education | Skills | Projects | Certifications | Summary

  const AllSections: set<Section> := {Contact, Experience, Education, Skills, Projects, Certifications, Summary}

  /** `HEADER_PATTERNS`, in its declared (and iteration) order. */
  const HeaderPatterns: seq<(Section, seq<string>)> := [
    (Experience, ["experience", "work experience", "work history", "employment",
                  "employment history", "professional experience", "career history",
                  "professional background", "job history"]),
    (Education, ["education", "academic background", "academic history",
                 "qualifications", "educational qualifications", "college",
                 "university", "schooling"]),
    (Skills, ["skills", "technical skills", "core competencies", "technologies",
              "tech stack", "programming languages", "expertise", "proficiencies"]),
    (Projects, ["projects", "personal projects", "academic projects",
                "key projects", "capstone projects"]),
    (Certifications, ["certifications", "certificates", "courses", "licenses",
                      "trainings", "achievements", "awards"]),
    (Contact, ["contact", "contact info", "contact details", "reach me",
               "personal info", "about me"])
  ]

  /** Headers are short: a candidate of more than this many words is never a header. */
  const MaxHeaderWords := 5

  predicate IsHeaderChar(c: char) {
    IsAsciiLetter(c) || IsSpace(c)
  }

  /** `re.sub(r"[^a-zA-Z\s]", "", text)`: keep only letters and whitespace. */
  function KeepHeaderChars(s: string): (r: string)
    ensures |r| <= |s|
    ensures forall k :: 0 <= k < |r| ==> IsHeaderChar(r[k])
    ensures forall k :: 0 <= k < |r| ==> r[k] in s
  {
    if |s| == 0 then []
    else (if IsHeaderChar(s[0]) then [s[0]] else []) + KeepHeaderChars(s[1..])
  }

  /** `clean_header`: letters and whitespace only, stripped, lower-cased. */
  function CleanHeader(text: string): (r: string)
    ensures forall k :: 0 <= k < |r| ==> IsHeaderChar(r[k])
    ensures IsLower(r)
    ensures IsStripped(r)
  {
    Lower(Strip(KeepHeaderChars(text)))
  }

  /** The first section of `table` one of whose patterns is exactly `candidate`. */
  function FirstSection(table: seq<(Section, seq<string>)>, candidate: string): (r: Option<nat>)
    ensures r.Some? ==> r.value < |table| && candidate in table[r.value].1
    ensures r.Some? ==> forall j :: 0 <= j < r.value ==> candidate !in table[j].1
    ensures r.None? <==> forall j :: 0 <= j < |table| ==> candidate !in table[j].1
  {
    if |table| == 0 then None
    else if candidate in table[0].1 then Some(0)
    else
      var r := FirstSection(table[1..], candidate);
      if r.Some? then Some(r.value + 1) else None
  }

  /** `detect_header`: the section a line announces, if it is a header at all. */
  function DetectHeader(line: string): (r: Option<Section>)
    ensures |Words(CleanHeader(line))| > MaxHeaderWords ==> r.None?
    ensures r != Some(Summary)
  {
    var candidate := CleanHeader(line);
    if |Words(candidate)| > MaxHeaderWords then None
    else
      match FirstSection(HeaderPatterns, candidate)
      case Some(i) => NoSummaryPattern(i); Some(HeaderPatterns[i].0)
      case None => None
  }

  /** No pattern announces the summary: it is only the section before the first header. */
  lemma NoSummaryPattern(i: nat)
    requires i < |HeaderPatterns|
    ensures HeaderPatterns[i].0 != Summary
  {
  }

  /**
   * A short line is a header exactly when its cleaned form equals a pattern,
   * and then it names the first section, in table order, holding that pattern.
   */
  lemma DetectHeaderFirstMatch(line: string)
    requires |Words(CleanHeader(line))| <= MaxHeaderWords
    ensures DetectHeader(line).None? <==>
      forall i :: 0 <= i < |HeaderPatterns| ==> CleanHeader(line) !in HeaderPatterns[i].1
    ensures DetectHeader(line).Some? ==>
      exists i :: 0 <= i < |HeaderPatterns| && HeaderPatterns[i].0 == DetectHeader(line).value &&
        CleanHeader(line) in HeaderPatterns[i].1 &&
        (forall j :: 0 <= j < i ==> CleanHeader(line) !in HeaderPatterns[j].1)
  {
    var r := FirstSection(HeaderPatterns, CleanHeader(line));
    if r.Some? {
      assert HeaderPatterns[r.value].0 == DetectHeader(line).value;
    }
  }

  // ---------------------------------------------------------------------
  // The walk over lines

  /** What the walk does with one line: skip it, switch section, or store its stripped text. */
  datatype LineKind = Blank | Header(section: Section) | Body(text: string)

  /** Strip the line; blank lines are skipped, headers switch section, anything else is body text. */
  function Classify(line: string): (k: LineKind)
    ensures k != Header(Summary)
    ensures k.Body? ==> k.text == Strip(line) && k.text != [] && IsStripped(k.text)
    ensures k == Blank <==> AllSpace(line)
  {
    var t := Strip(line);
    if t == [] then Blank
    else
      match DetectHeader(t)
      case Some(s) => Header(s)
      case None => Body(t)
  }

  function ClassifyAll(lines: seq<string>): (ks: seq<LineKind>)
    ensures |ks| == |lines|
    ensures forall i :: 0 <= i < |lines| ==> ks[i] == Classify(lines[i])
  {
    seq(|lines|, i requires 0 <= i < |lines| => Classify(lines[i]))
  }

  /** What `Classify` guarantees of every line: no SUMMARY header, body text stripped and non-empty. */
  predicate WellClassified(ks: seq<LineKind>) {
    forall i :: 0 <= i < |ks| ==>
      ks[i] != Header(Summary) && (ks[i].Body? ==> ks[i].text != [] && IsStripped(ks[i].text))
  }

  lemma ClassifyAllWellClassified(lines: seq<string>)
    ensures WellClassified(ClassifyAll(lines))
  {
  }

  /** The section in force at position `i`: that of the last header before it, or SUMMARY. */
  function SectionAt(ks: seq<LineKind>, i: nat): Section
    requires i <= |ks|
  {
    if i == 0 then Summary
    else if ks[i - 1].Header? then ks[i - 1].section
    else SectionAt(ks, i - 1)
  }

  /** The body lines among the first `n` whose section is `s`, in input order. */
  function Collected(ks: seq<LineKind>, s: Section, n: nat): seq<string>
    requires n <= |ks|
  {
    if n == 0 then []
    else
      var stored := ks[n - 1].Body? && SectionAt(ks, n - 1) == s;
      Collected(ks, s, n - 1) + (if stored then [ks[n - 1].text] else [])
  }

  /** The walk of `segment` over classified lines: seven buckets, starting in SUMMARY,
      blank and header lines consumed, every body line appended to the section in force. */
  method Walk(ks: seq<LineKind>) returns (sections: map<Section, seq<string>>)
    ensures sections.Keys == AllSections
    ensures forall s :: s in sections ==> sections[s] == Collected(ks, s, |ks|)
  {
    sections := map[Contact := [], Experience := [], Education := [], Skills := [],
                    Projects := [], Certifications := [], Summary := []];
    var current := Summary;
    var i := 0;
    while i < |ks|
      invariant 0 <= i <= |ks|
      invariant current == SectionAt(ks, i)
      invariant sections.Keys == AllSections
      invariant forall s :: s in sections ==> sections[s] == Collected(ks, s, i)
    {
      match ks[i] {
        case Blank =>
        case Header(s) =>
          current := s;
        case Body(line) =>
          sections := sections[current := sections[current] + [line]];
      }
      i := i + 1;
    }
  }

  /** `segment`: split on newlines, classify every line, then walk. */
  method Segment(text: string) returns (sections: map<Section, seq<string>>)
    ensures sections.Keys == AllSections
    ensures forall s :: s in sections ==>
      sections[s] == Collected(ClassifyAll(SplitOn(text, '\n')), s, |SplitOn(text, '\n')|)
  {
    var ks := ClassifyAll(SplitOn(text, '\n'));
    sections := Walk(ks);
  }

  // ---------------------------------------------------------------------
  // Properties

  /** Once any header has been seen, no later line lands in SUMMARY. */
  lemma {:induction false} NoSummaryAfterHeader(ks: seq<LineKind>, j: nat, i: nat)
    requires WellClassified(ks)
    requires j < i <= |ks| && ks[j].Header?
    ensures SectionAt(ks, i) != Summary
    decreases i
  {
    if !ks[i - 1].Header? {
      NoSummaryAfterHeader(ks, j, i - 1);
    }
  }

  /** Number of body lines among the first `n`. */
  function BodyCount(ks: seq<LineKind>, n: nat): nat
    requires n <= |ks|
  {
    if n == 0 then 0 else BodyCount(ks, n - 1) + (if ks[n - 1].Body? then 1 else 0)
  }

  function TotalStored(ks: seq<LineKind>, n: nat): nat
    requires n <= |ks|
  {
    |Collected(ks, Contact, n)| + |Collected(ks, Experience, n)| + |Collected(ks, Education, n)| +
    |Collected(ks, Skills, n)| + |Collected(ks, Projects, n)| + |Collected(ks, Certifications, n)| +
    |Collected(ks, Summary, n)|
  }

  /** Every body line is stored exactly once: the bucket lengths add up to the body-line count. */
  lemma {:induction false} StoredCountsBody(ks: seq<LineKind>, n: nat)
    requires n <= |ks|
    ensures TotalStored(ks, n) == BodyCount(ks, n)
    decreases n
  {
    if n > 0 {
      StoredCountsBody(ks, n - 1);
    }
  }

  /** Stored lines are never empty and never carry surrounding whitespace. */
  lemma {:induction false} StoredLinesAreClean(ks: seq<LineKind>, s: Section, n: nat)
    requires WellClassified(ks) && n <= |ks|
    ensures forall x :: x in Collected(ks, s, n) ==> x != [] && IsStripped(x)
    decreases n
  {
    if n > 0 {
      StoredLinesAreClean(ks, s, n - 1);
    }
  }

  lemma {:induction false} KeepHeaderCharsConcat(a: string, b: string)
    ensures KeepHeaderChars(a + b) == KeepHeaderChars(a) + KeepHeaderChars(b)
    decreases |a|
  {
    if |a| == 0 {
      assert a + b == b;
    } else {
      assert (a + b)[1..] == a[1..] + b;
      KeepHeaderCharsConcat(a[1..], b);
    }
  }

  /** Text made only of letters and whitespace passes the header filter unchanged. */
  lemma {:induction false} KeepHeaderCharsKeeps(s: string)
    requires forall k :: 0 <= k < |s| ==> IsHeaderChar(s[k])
    ensures KeepHeaderChars(s) == s
    decreases |s|
  {
    if |s| > 0 {
      KeepHeaderCharsKeeps(s[1..]);
    }
  }

  /** Text with neither letters nor whitespace is removed entirely by the header filter. */
  lemma {:induction false} KeepHeaderCharsDrops(s: string)
    requires forall k :: 0 <= k < |s| ==> !IsHeaderChar(s[k])
    ensures KeepHeaderChars(s) == []
    decreases |s|
  {
    if |s| > 0 {
      KeepHeaderCharsDrops(s[1..]);
    }
  }

  /** Decoration made of neither letters nor whitespace around a line never changes what it announces. */
  lemma HeaderIgnoresDecoration(a: string, b: string, c: string)
    requires forall k :: 0 <= k < |a| ==> !IsHeaderChar(a[k])
    requires forall k :: 0 <= k < |c| ==> !IsHeaderChar(c[k])
    ensures CleanHeader(a + b + c) == CleanHeader(b)
    ensures DetectHeader(a + b + c) == DetectHeader(b)
  {
    KeepHeaderCharsConcat(a + b, c);
    KeepHeaderCharsConcat(a, b);
    KeepHeaderCharsDrops(a);
    KeepHeaderCharsDrops(c);
    assert KeepHeaderChars(a + b + c) == KeepHeaderChars(b);
  }

  /** A single word of letters, in any case, is its own lower-cased form once cleaned: one word, so short enough. */
  lemma SingleWordHeader(line: string)
    requires line != [] && forall k :: 0 <= k < |line| ==> IsAsciiLetter(line[k])
    ensures CleanHeader(line) == Lower(line)
    ensures |Words(CleanHeader(line))| == 1
  {
    LettersClean(line);
    LowerKeepsSpaces(line);
    OneWord(Lower(line));
  }

  /** Cleaning a line of letters only lower-cases it. */
  lemma LettersClean(line: string)
    requires line != [] && forall k :: 0 <= k < |line| ==> IsAsciiLetter(line[k])
    ensures CleanHeader(line) == Lower(line)
  {
    KeepHeaderCharsKeeps(line);
    StripOfStripped(line);
  }

  lemma LowerKeepsSpaces(s: string)
    requires forall k :: 0 <= k < |s| ==> !IsSpace(s[k])
    ensures forall k :: 0 <= k < |s| ==> !IsSpace(Lower(s)[k])
  {
  }

  /** A non-empty string without whitespace is a single word. */
  lemma OneWord(w: string)
    requires w != [] && forall k :: 0 <= k < |w| ==> !IsSpace(w[k])
    ensures |Words(w)| == 1
  {
    assert w == w + "";
    WordsCons(w, "");
  }

  /** Text before the first header is summary; each later body line goes to the last header above it. */
  lemma WalkScenario()
    ensures var ks := [Body("Intro line"), Header(Education), Body("B.Tech in CS"), Blank,
                       Header(Skills), Body("Python, SQL")];
      Collected(ks, Summary, 6) == ["Intro line"] &&
      Collected(ks, Education, 6) == ["B.Tech in CS"] &&
      Collected(ks, Skills, 6) == ["Python, SQL"] &&
      Collected(ks, Experience, 6) == []
  {
  }

  // ---------------------------------------------------------------------
  // Header lines of the module's own sample résumé

  /** The first section of a table listing the candidate is the one at `i` when no earlier one lists it. */
  lemma {:induction false} FirstSectionAt(table: seq<(Section, seq<string>)>, c: string, i: nat)
    requires i < |table| && c in table[i].1
    requires forall j :: 0 <= j < i ==> c !in table[j].1
    ensures FirstSection(table, c) == Some(i)
    decreases i
  {
    if i > 0 {
      FirstSectionAt(table[1..], c, i - 1);
    }
  }

  /** A short cleaned line that the table places at `i` announces that entry's section. */
  lemma DetectVia(line: string, c: string, i: nat)
    requires CleanHeader(line) == c && |Words(c)| <= MaxHeaderWords
    requires i < |HeaderPatterns| && FirstSection(HeaderPatterns, c) == Some(i)
    ensures DetectHeader(line) == Some(HeaderPatterns[i].0)
  {
  }

  /** No pattern has this length and, at that length, this first letter. */
  predicate UnlikeEveryPattern(n: nat, first: char) {
    forall j, m :: 0 <= j < |HeaderPatterns| && 0 <= m < |HeaderPatterns[j].1| ==>
      |HeaderPatterns[j].1[m]| != n || (n > 0 && HeaderPatterns[j].1[m][0] != first)
  }

  /** A line whose cleaned form differs from every pattern in length or first letter is no header. */
  lemma NoneByShape(line: string, n: nat, first: char)
    requires |Strip(KeepHeaderChars(line))| == n > 0
    requires LowerChar(Strip(KeepHeaderChars(line))[0]) == first
    requires UnlikeEveryPattern(n, first)
    ensures DetectHeader(line) == None
  {
    var k := Strip(KeepHeaderChars(line));
    var c := CleanHeader(line);
    assert c == Lower(k);
    forall j | 0 <= j < |HeaderPatterns|
      ensures c !in HeaderPatterns[j].1
    {
      assert |c| == n && c[0] == first;
    }
  }

  /** A line of letters and whitespace with one space of padding on each side cleans to its lower-cased inside. */
  lemma PaddedClean(b: string)
    requires |b| >= 3 && IsSpace(b[0]) && IsSpace(b[|b| - 1])
    requires !IsSpace(b[1]) && !IsSpace(b[|b| - 2])
    requires forall k :: 0 <= k < |b| ==> IsHeaderChar(b[k])
    ensures CleanHeader(b) == Lower(b[1..|b| - 1])
  {
    KeepHeaderCharsKeeps(b);
    StripOneEach(b);
  }

  lemma StripOneEach(b: string)
    requires |b| >= 3 && IsSpace(b[0]) && IsSpace(b[|b| - 1])
    requires !IsSpace(b[1]) && !IsSpace(b[|b| - 2])
    ensures Strip(b) == b[1..|b| - 1]
  {
    assert b == b[..1] + b[1..|b| - 1] + b[|b| - 1..];
    StripPadded(b[..1], b[1..|b| - 1], b[|b| - 1..]);
  }

  // "EDUCATION"

  lemma EducationLetters(line: string)
    requires line == "EDUCATION"
    ensures line != [] && forall k :: 0 <= k < |line| ==> IsAsciiLetter(line[k])
    ensures Lower(line) == "education"
  {
  }

  lemma EducationSection(c: string)
    requires c == "education"
    ensures FirstSection(HeaderPatterns, c) == Some(1)
  {
    assert c !in HeaderPatterns[0].1;
    assert HeaderPatterns[1].1[0] == c;
    FirstSectionAt(HeaderPatterns, c, 1);
  }

  /** The sample's "EDUCATION" line opens the EDUCATION section. */
  lemma EducationHeader(line: string)
    requires line == "EDUCATION"
    ensures DetectHeader(line) == Some(Education)
  {
    EducationLetters(line);
    SingleWordHeader(line);
    EducationSection(CleanHeader(line));
    DetectVia(line, CleanHeader(line), 1);
  }

  // "University of Calicut"

  lemma CalicutChars(line: string)
    requires line == "University of Calicut"
    ensures forall k :: 0 <= k < |line| ==> IsHeaderChar(line[k])
    ensures IsStripped(line) && |line| == 21 && LowerChar(line[0]) == 'u'
  {
  }

  lemma Unlike21u()
    ensures UnlikeEveryPattern(21, 'u')
  {
  }

  /**
   * The sample's "University of Calicut" line is body text, although
   * "university" alone is an EDUCATION pattern: the whole cleaned line must equal a pattern.
   */
  lemma CalicutIsBody(line: string)
    requires line == "University of Calicut"
    ensures DetectHeader(line) == None
  {
    CalicutChars(line);
    KeepHeaderCharsKeeps(line);
    StripOfStripped(line);
    Unlike21u();
    NoneByShape(line, 21, 'u');
  }

  // "Technical Skills"

  lemma TechnicalChars(line: string)
    requires line == "Technical Skills"
    ensures forall k :: 0 <= k < |line| ==> IsHeaderChar(line[k])
    ensures IsStripped(line)
    ensures Lower(line) == "technical skills"
  {
  }

  lemma TechnicalWords(c: string)
    requires c == "technical skills"
    ensures |Words(c)| == 2
  {
    TwoWords(c, 9);
  }

  lemma TechnicalSection(c: string)
    requires c == "technical skills"
    ensures FirstSection(HeaderPatterns, c) == Some(2)
  {
    assert c !in HeaderPatterns[0].1;
    assert c !in HeaderPatterns[1].1;
    assert HeaderPatterns[2].1[1] == c;
    FirstSectionAt(HeaderPatterns, c, 2);
  }

  /** The sample's "Technical Skills" line opens the SKILLS section. */
  lemma TechnicalSkillsHeader(line: string)
    requires line == "Technical Skills"
    ensures DetectHeader(line) == Some(Skills)
  {
    TechnicalChars(line);
    KeepHeaderCharsKeeps(line);
    StripOfStripped(line);
    TechnicalWords(CleanHeader(line));
    TechnicalSection(CleanHeader(line));
    DetectVia(line, CleanHeader(line), 2);
  }

  // "*** Professional Experience ***"

  lemma DecorationChars(line: string)
    requires line == "*** Professional Experience ***"
    ensures |line| == 31
    ensures forall k :: 0 <= k < 3 ==> !IsHeaderChar(line[k])
    ensures forall k :: 28 <= k < 31 ==> !IsHeaderChar(line[k])
  {
  }

  lemma Undecorated(line: string)
    requires line == "*** Professional Experience ***"
    ensures DetectHeader(line) == DetectHeader(line[3..28])
  {
    DecorationChars(line);
    assert line == line[..3] + line[3..28] + line[28..];
    HeaderIgnoresDecoration(line[..3], line[3..28], line[28..]);
  }

  lemma UndecoratedText(line: string)
    requires line == "*** Professional Experience ***"
    ensures line[3..28] == " Professional Experience "
  {
    assert forall k :: 0 <= k < 25 ==> line[3..28][k] == line[k + 3];
  }

  lemma PaddedChars(b: string)
    requires b == " Professional Experience "
    ensures forall k :: 0 <= k < |b| ==> IsHeaderChar(b[k])
    ensures |b| == 25 && IsSpace(b[0]) && IsSpace(b[24]) && !IsSpace(b[1]) && !IsSpace(b[23])
  {
  }

  lemma PaddedInside(b: string)
    requires b == " Professional Experience "
    ensures b[1..24] == "Professional Experience"
  {
    assert forall k :: 0 <= k < 23 ==> b[1..24][k] == b[k + 1];
  }

  lemma ProfessionalLower(p: string)
    requires p == "Professional Experience"
    ensures Lower(p) == "professional experience"
  {
  }

  lemma ProfessionalWords(c: string)
    requires c == "professional experience"
    ensures |Words(c)| == 2
  {
    TwoWords(c, 12);
  }

  lemma ProfessionalSection(c: string)
    requires c == "professional experience"
    ensures FirstSection(HeaderPatterns, c) == Some(0)
  {
    assert HeaderPatterns[0].1[5] == c;
  }

  lemma PaddedHeader(b: string)
    requires b == " Professional Experience "
    ensures DetectHeader(b) == Some(Experience)
  {
    PaddedChars(b);
    PaddedClean(b);
    PaddedInside(b);
    ProfessionalLower(b[1..24]);
    ProfessionalWords(CleanHeader(b));
    ProfessionalSection(CleanHeader(b));
    DetectVia(b, CleanHeader(b), 0);
  }

  /** The sample's decorated "*** Professional Experience ***" line opens the EXPERIENCE section. */
  lemma ProfessionalExperienceHeader(line: string)
    requires line == "*** Professional Experience ***"
    ensures DetectHeader(line) == Some(Experience)
  {
    Undecorated(line);
    UndecoratedText(line);
    PaddedHeader(line[3..28]);
  }
}
