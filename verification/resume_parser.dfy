/**
 * The first-generation résumé parser's skill scan (`ResumeParser`): a fixed
 * list of sixteen skills, each reported when its lower-case form is a plain
 * substring of the lower-cased text. Unlike the later scanners there is no
 * word boundary, so a skill is also reported inside a longer word.
 */
module ResumeParser {
  import opened Chars
  import opened WordMatch
  import opened OrderedDict

  /** The skills `extract_details` looks for, in the order it reports them. */
  const SkillsDb: seq<string> := [
    "Python", "Java", "C++", "SQL", "JavaScript", "React",
    "Angular", "Docker", "Kubernetes", "AWS", "Azure",
    "Machine Learning", "Data Science", "Git", "Flask", "Django"
  ]

  /** `skill.lower() in text.lower()`. */
  predicate Reported(skill: string, text: string) {
    Contains(Lower(text), Lower(skill))
  }

  /** `a` is `b` with some entries deleted: the entries of `a` appear in `b` in the same order. */
  predicate SubsequenceOf(a: seq<string>, b: seq<string>)
    decreases |b|
  {
    if |a| == 0 then true
    else if |b| == 0 then false
    else (a[0] == b[0] && SubsequenceOf(a[1..], b[1..])) || SubsequenceOf(a, b[1..])
  }

  /** The scan loop over a skill list: the entries the text reports, in list order. */
  function ScanSkills(db: seq<string>, text: string): (found: seq<string>)
    ensures forall s :: s in found <==> s in db && Reported(s, text)
    ensures SubsequenceOf(found, db)
  {
    if |db| == 0 then []
    else if Reported(db[0], text) then [db[0]] + ScanSkills(db[1..], text)
    else ScanSkills(db[1..], text)
  }

  /** The skills `extract_details` reports for a text. */
  function ExtractSkills(text: string): (found: seq<string>)
    ensures forall s :: s in found <==> s in SkillsDb && Reported(s, text)
    ensures SubsequenceOf(found, SkillsDb)
  {
    ScanSkills(SkillsDb, text)
  }

  /** A list without repeated entries gives a report without repeated entries. */
  lemma {:induction false} ScanDistinct(db: seq<string>, text: string)
    requires Distinct(db)
    ensures Distinct(ScanSkills(db, text))
    decreases |db|
  {
    if |db| > 0 {
      assert Distinct(db[1..]) by {
        forall i, j | 0 <= i < j < |db| - 1
          ensures db[1..][i] != db[1..][j]
        {
          assert db[1..][i] == db[i + 1] && db[1..][j] == db[j + 1];
        }
      }
      ScanDistinct(db[1..], text);
      var rest := ScanSkills(db[1..], text);
      if Reported(db[0], text) {
        assert db[0] !in db[1..] by {
          forall k | 0 <= k < |db| - 1
            ensures db[1..][k] != db[0]
          {
            assert db[1..][k] == db[k + 1];
          }
        }
        assert db[0] !in rest;
        var found := [db[0]] + rest;
        forall i, j | 0 <= i < j < |found|
          ensures found[i] != found[j]
        {
          if i == 0 {
            assert found[j] == rest[j - 1];
          } else {
            assert found[i] == rest[i - 1] && found[j] == rest[j - 1];
          }
        }
      }
    }
  }

  /** The fixed list has no repeated entry. */
  lemma SkillsDbDistinct()
    ensures Distinct(SkillsDb)
  {
  }

  /** Each skill is reported at most once. */
  lemma ExtractSkillsDistinct(text: string)
    ensures Distinct(ExtractSkills(text))
  {
    SkillsDbDistinct();
    ScanDistinct(SkillsDb, text);
  }

  /** No skill is reported for an empty text, as long as no list entry is empty. */
  lemma {:induction false} NothingInEmptyText(db: seq<string>)
    requires forall i :: 0 <= i < |db| ==> db[i] != ""
    ensures ScanSkills(db, "") == []
    decreases |db|
  {
    if |db| > 0 {
      assert !Reported(db[0], "");
      NothingInEmptyText(db[1..]);
    }
  }

  lemma SkillsDbNoEmpty()
    ensures forall i :: 0 <= i < |SkillsDb| ==> SkillsDb[i] != ""
  {
  }

  /** The fixed list reports nothing for an empty text. */
  lemma EmptyTextNoSkills(text: string)
    requires text == ""
    ensures ExtractSkills(text) == []
  {
    SkillsDbNoEmpty();
    NothingInEmptyText(SkillsDb);
  }

  /** A skill whose lower-case form begins a reported skill's lower-case form is reported too. */
  lemma PrefixReported(short: string, long: string, text: string)
    requires |short| <= |long| && Lower(long)[..|short|] == Lower(short)
    requires Reported(long, text)
    ensures Reported(short, text)
  {
    var i :| 0 <= i <= |Lower(text)| - |Lower(long)| && OccursAt(Lower(long), Lower(text), i);
    assert Lower(text)[i..i + |short|] == Lower(long)[..|short|];
    assert OccursAt(Lower(short), Lower(text), i);
  }

  /** With no word boundary, "Java" is reported whenever "JavaScript" is. */
  lemma JavaWithJavaScript(text: string)
    requires "JavaScript" in ExtractSkills(text)
    ensures "Java" in ExtractSkills(text)
  {
    var long: string := "JavaScript";
    assert Reported(long, text);
    JavaPrefix(long);
    PrefixReported("Java", long, text);
    assert SkillsDb[1] == "Java";
  }

  /** "java" begins the lower-case form of "JavaScript". */
  lemma JavaPrefix(long: string)
    requires long == "JavaScript"
    ensures |"Java"| <= |long| && Lower(long)[..4] == Lower("Java")
  {
    LowerSlice(long, 0, 4);
    assert long[..4] == "Java";
  }

  /** Every word-bounded, case-insensitive match is also a plain substring match. */
  lemma BoundedMatchIsReported(skill: string, text: string)
    requires MatchesIgnoreCase(skill, text)
    ensures Reported(skill, text)
  {
    var p :| 0 <= p <= |Lower(text)| - |Lower(skill)| && BoundedAt(Lower(skill), Lower(text), p);
    assert OccursAt(Lower(skill), Lower(text), p);
  }
}
