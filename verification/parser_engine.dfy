/**
 * The pure fragments of the second-generation résumé parser (`ParserEngine`):
 * flattening the categorised skill file, choosing the extractor from the file
 * name, picking a name among the named-entity candidates with its first-line
 * fallback, and the word-bounded scan against the flattened skill list.
 *
 * The PDF and Word extractors, the entity recogniser and every file read are
 * outside the model: their results are parameters.
 */
module ParserEngine {
  import opened Wrappers
  import opened Chars
  import opened WordMatch
  import TextCleaner

  // ---------------------------------------------------------------------
  // load_skills

  /** The skill file: category names with their skill lists, in file order. */
  type SkillPatterns = seq<(string, seq<string>)>

  /** Every category's skills, one list after another, in category order. */
  function Flatten(data: SkillPatterns): (flat: seq<string>)
  {
    if |data| == 0 then [] else Flatten(data[..|data| - 1]) + data[|data| - 1].1
  }

  /** `load_skills`: the flattened file, or nothing when the file is missing. */
  function LoadSkills(file: Option<SkillPatterns>): (db: seq<string>)
    ensures file.None? ==> db == []
    ensures file.Some? ==> db == Flatten(file.value)
    ensures file.Some? ==> |db| == TotalSkills(file.value)
  {
    match file
    case None => []
    case Some(data) => FlattenLength(data); Flatten(data)
  }

  /** A loaded skill is one that some category of the file lists, and every listed skill is loaded. */
  lemma LoadSkillsMembers(data: SkillPatterns, s: string)
    ensures s in LoadSkills(Some(data)) <==> exists i :: 0 <= i < |data| && s in data[i].1
  {
    FlattenMembers(data, s);
  }

  /** Flattening two parts of the file is flattening each and concatenating. */
  lemma {:induction false} FlattenConcat(a: SkillPatterns, b: SkillPatterns)
    ensures Flatten(a + b) == Flatten(a) + Flatten(b)
    decreases |b|
  {
    if |b| == 0 {
      assert a + b == a;
    } else {
      LastOfConcat(a, b);
      FlattenConcat(a, b[..|b| - 1]);
    }
  }

  lemma LastOfConcat(a: SkillPatterns, b: SkillPatterns)
    requires |b| > 0
    ensures (a + b)[..|a + b| - 1] == a + b[..|b| - 1]
    ensures (a + b)[|a + b| - 1] == b[|b| - 1]
  {
  }

  /** A skill is in the flattened list exactly when some category lists it. */
  lemma {:induction false} FlattenMembers(data: SkillPatterns, s: string)
    ensures s in Flatten(data) <==> exists i :: 0 <= i < |data| && s in data[i].1
    decreases |data|
  {
    if |data| > 0 {
      var n := |data| - 1;
      FlattenMembers(data[..n], s);
      if exists i :: 0 <= i < n && s in data[..n][i].1 {
        var i :| 0 <= i < n && s in data[..n][i].1;
        assert data[i] == data[..n][i];
      }
      if exists i :: 0 <= i < |data| && s in data[i].1 {
        var i :| 0 <= i < |data| && s in data[i].1;
        if i < n {
          assert data[..n][i] == data[i];
        }
      }
    }
  }

  /** The flattened list is as long as all category lists together. */
  function TotalSkills(data: SkillPatterns): nat {
    if |data| == 0 then 0 else TotalSkills(data[..|data| - 1]) + |data[|data| - 1].1|
  }

  lemma {:induction false} FlattenLength(data: SkillPatterns)
    ensures |Flatten(data)| == TotalSkills(data)
    decreases |data|
  {
    if |data| > 0 {
      FlattenLength(data[..|data| - 1]);
    }
  }

  // ---------------------------------------------------------------------
  // File-type dispatch

  datatype FileKind = Pdf | Docx

  predicate EndsWith(s: string, suffix: string) {
    |suffix| <= |s| && s[|s| - |suffix|..] == suffix
  }

  /** The extractor `parse_resume` picks from the file name; the test is case-sensitive. */
  function FileKindOf(filename: string): (k: Option<FileKind>)
    ensures k == Some(Pdf) <==> EndsWith(filename, ".pdf")
    ensures k == Some(Docx) <==> !EndsWith(filename, ".pdf") && EndsWith(filename, ".docx")
    ensures k.None? <==> !EndsWith(filename, ".pdf") && !EndsWith(filename, ".docx")
  {
    if EndsWith(filename, ".pdf") then Some(Pdf)
    else if EndsWith(filename, ".docx") then Some(Docx)
    else None
  }

  /** An upper-case extension is not recognised. */
  lemma UpperCaseExtensionSkipped(filename: string)
    requires filename == "CV.PDF"
    ensures FileKindOf(filename) == None
  {
    assert filename[|filename| - 4..][1] == 'P';
    assert filename[|filename| - 5..][0] == 'V';
  }

  // ---------------------------------------------------------------------
  // Name candidates

  /** A named entity, as the recogniser reports it: its label (`label_`) and its text. */
  datatype Entity = Entity(kind: string, text: string)

  /** Candidates that name the document rather than a person. */
  const DocumentWords: seq<string> := ["resume", "curriculum vitae", "profile", "bio"]

  /** The part of `s` before its first line feed. */
  function FirstLine(s: string): (line: string)
    ensures '\n' !in line
    ensures |line| <= |s| && line == s[..|line|]
    ensures |line| < |s| ==> s[|line|] == '\n'
  {
    SplitFirst(s, '\n');
    SplitOn(s, '\n')[0]
  }

  /** The candidate an entity offers: the first line of its stripped text. */
  function Candidate(e: Entity): string {
    FirstLine(Strip(e.text))
  }

  /** A candidate is skipped when it is a known skill (exactly) or a document word (in any case). */
  predicate Skipped(candidate: string, skillsDb: seq<string>) {
    candidate in skillsDb || Lower(candidate) in DocumentWords
  }

  /** The entity a name is taken from: a person whose candidate is not skipped. */
  predicate Acceptable(e: Entity, skillsDb: seq<string>) {
    e.kind == "PERSON" && !Skipped(Candidate(e), skillsDb)
  }

  /** The entity loop from position `i` on: the index of the first acceptable entity, if any. */
  function FirstAcceptableFrom(ents: seq<Entity>, skillsDb: seq<string>, i: nat): (r: Option<nat>)
    requires i <= |ents|
    ensures r.Some? ==> i <= r.value < |ents| && Acceptable(ents[r.value], skillsDb)
    ensures r.Some? ==> forall j :: i <= j < r.value ==> !Acceptable(ents[j], skillsDb)
    ensures r.None? <==> forall j :: i <= j < |ents| ==> !Acceptable(ents[j], skillsDb)
    decreases |ents| - i
  {
    if i == |ents| then None
    else if Acceptable(ents[i], skillsDb) then Some(i)
    else
      var r := FirstAcceptableFrom(ents, skillsDb, i + 1);
      assert forall j :: i <= j < i + 1 ==> !Acceptable(ents[j], skillsDb);
      r
  }

  /** The index of the first acceptable entity, if any. */
  function FirstAcceptable(ents: seq<Entity>, skillsDb: seq<string>): (r: Option<nat>)
    ensures r.Some? ==> r.value < |ents| && Acceptable(ents[r.value], skillsDb)
    ensures r.Some? ==> forall j :: 0 <= j < r.value ==> !Acceptable(ents[j], skillsDb)
    ensures r.None? <==> forall j :: 0 <= j < |ents| ==> !Acceptable(ents[j], skillsDb)
  {
    FirstAcceptableFrom(ents, skillsDb, 0)
  }

  /** The name loop: the candidate of the first acceptable entity. */
  function PickName(ents: seq<Entity>, skillsDb: seq<string>): (name: Option<string>)
    ensures name.None? <==> forall j :: 0 <= j < |ents| ==> !Acceptable(ents[j], skillsDb)
    ensures name.Some? ==>
      ('\n' !in name.value && name.value !in skillsDb && Lower(name.value) !in DocumentWords)
  {
    match FirstAcceptable(ents, skillsDb)
    case None => None
    case Some(i) => Some(Candidate(ents[i]))
  }

  /** A name comes from the first person entity whose candidate passes both filters. */
  lemma PickNameFirst(ents: seq<Entity>, skillsDb: seq<string>)
    requires PickName(ents, skillsDb).Some?
    ensures exists i :: (0 <= i < |ents| && ents[i].kind == "PERSON" &&
      PickName(ents, skillsDb).value == Candidate(ents[i]) &&
      forall j :: 0 <= j < i ==> !Acceptable(ents[j], skillsDb))
  {
    var i := FirstAcceptable(ents, skillsDb).value;
    assert ents[i].kind == "PERSON";
  }

  /** Names no longer than this (exclusive) may come from the first line. */
  const FallbackLimit := 50

  /** A name is missing when none was found or the one found is empty (`not data["name"]`). */
  predicate Missing(name: Option<string>) {
    name.None? || name.value == ""
  }

  /** The first-line fallback: used only when no name was found and the line looks like a name. */
  function Fallback(name: Option<string>, cleaned: string): (r: Option<string>)
    ensures !Missing(name) ==> r == name
    ensures Missing(name) ==>
      (var first := Strip(FirstLine(cleaned));
       r == (if '@' !in first && |first| < FallbackLimit then Some(first) else name))
    ensures r != name ==>
      ('@' !in r.value && '\n' !in r.value && |r.value| < FallbackLimit && IsStripped(r.value))
  {
    if !Missing(name) then name
    else
      var first := Strip(FirstLine(cleaned));
      if '@' !in first && |first| < FallbackLimit then Some(first) else name
  }

  // ---------------------------------------------------------------------
  // Skill scan

  /** The list entries the text mentions word-bounded, in any case. */
  function Mentioned(db: seq<string>, text: string): set<string> {
    set s | s in db && MatchesIgnoreCase(s, text)
  }

  /** The scan loop, adding every matching entry to a set. */
  function ScanSkills(db: seq<string>, text: string): (found: set<string>)
    ensures found == Mentioned(db, text)
  {
    if |db| == 0 then {}
    else
      var last := db[|db| - 1];
      assert forall s :: s in db <==> s in db[..|db| - 1] || s == last;
      ScanSkills(db[..|db| - 1], text) + (if MatchesIgnoreCase(last, text) then {last} else {})
  }

  // ---------------------------------------------------------------------
  // parse_resume

  /** The fields of the parse result this model computes. */
  datatype ResumeData = ResumeData(filename: string, name: Option<string>, skills: set<string>)

  /**
   * `parse_resume`, given the text the extractor returned and the entities the
   * recogniser found in the cleaned text: files of other types give nothing.
   */
  function ParseResume(filename: string, raw: string, ents: seq<Entity>, skillsDb: seq<string>): (r: Option<ResumeData>)
    ensures r.None? <==> FileKindOf(filename).None?
    ensures r.Some? ==>
      (r.value.filename == filename &&
       r.value.skills == Mentioned(skillsDb, TextCleaner.Clean(raw)) &&
       r.value.name == Fallback(PickName(ents, skillsDb), TextCleaner.Clean(raw)))
  {
    if FileKindOf(filename).None? then None
    else
      var cleaned := TextCleaner.Clean(raw);
      Some(ResumeData(filename, Fallback(PickName(ents, skillsDb), cleaned), ScanSkills(skillsDb, cleaned)))
  }
}
