/**
 * The confidence skill matcher (`SkillExtractor.extract_skills`).
 *
 * The catalogue is folded over the text in order. A record whose name occurs
 * word-bounded (case-insensitively) scores 100; otherwise the first alias that
 * occurs scores 90. A scoring record stores its score unless the name already
 * holds one at least as high, and then adds each related skill at 50 when that
 * skill is not yet a key. Scores are integer percentages.
 */
module SkillExtractor {
  import opened Wrappers
  import opened Chars
  import opened WordMatch
  import opened OrderedDict

  /** One catalogue entry. A field missing from the source record is empty (`None` for the category). */
  datatype SkillRecord = SkillRecord(
    name: string,
    aliases: seq<string>,
    relatedSkills: seq<string>,
    category: Option<string>)

  type Catalogue = seq<SkillRecord>

  /** Skill name to score, in insertion order. */
  type Scores = Dict<nat>

  const ExactScore: nat := 100
  const AliasScore: nat := 90
  const InferredScore: nat := 50

  /** `_is_match`: the keyword, lower-cased, occurs word-bounded in the lower-cased text. */
  predicate IsMatch(keyword: string, text: string) {
    MatchesIgnoreCase(keyword, text)
  }

  /** The alias loop with its `break`: the index of the first alias that matches. */
  function FirstMatchingAlias(aliases: seq<string>, text: string): (r: Option<nat>)
    ensures r.Some? ==> r.value < |aliases| && IsMatch(aliases[r.value], text)
    ensures r.Some? ==> forall j :: 0 <= j < r.value ==> !IsMatch(aliases[j], text)
    ensures r.None? <==> forall j :: 0 <= j < |aliases| ==> !IsMatch(aliases[j], text)
  {
    if |aliases| == 0 then None
    else if IsMatch(aliases[0], text) then Some(0)
    else
      var r := FirstMatchingAlias(aliases[1..], text);
      if r.Some? then Some(r.value + 1) else None
  }

  /** The score one record earns from the text: 100, 90 or 0 (no match). */
  function Score(r: SkillRecord, text: string): (s: nat)
    ensures s == ExactScore <==> IsMatch(r.name, text)
    ensures s == AliasScore <==>
      !IsMatch(r.name, text) && exists j :: 0 <= j < |r.aliases| && IsMatch(r.aliases[j], text)
    ensures s == 0 <==>
      !IsMatch(r.name, text) && forall j :: 0 <= j < |r.aliases| ==> !IsMatch(r.aliases[j], text)
  {
    if IsMatch(r.name, text) then ExactScore
    else if FirstMatchingAlias(r.aliases, text).Some? then AliasScore
    else 0
  }

  /** The inner loop over related skills: each absent one is added at 50; present keys are untouched. */
  function AddRelated(found: Scores, related: seq<string>): (r: Scores)
    ensures forall k :: (Get(r, k) ==
      if Get(found, k).Some? then Get(found, k)
      else if k in related then Some(InferredScore)
      else None)
    decreases |related|
  {
    if |related| == 0 then found
    else
      var next := if Get(found, related[0]).Some? then found else Put(found, related[0], InferredScore);
      AddRelated(next, related[1..])
  }

  /** The score held for `k`, 0 when absent (Python's `found_skills.get(k, 0)`). */
  function Stored(found: Scores, k: string): nat {
    match Get(found, k)
    case Some(v) => v
    case None => 0
  }

  /** Store score `s` for `name` unless the name already holds a score at least as high. */
  function Raise(found: Scores, name: string, s: nat): (r: Scores)
    requires s > 0
    ensures Get(r, name) == Some(Max(Stored(found, name), s))
    ensures forall k :: k != name ==> Get(r, k) == Get(found, k)
  {
    if Stored(found, name) < s then Put(found, name, s) else found
  }

  /** One iteration of the catalogue loop. */
  function Step(found: Scores, r: SkillRecord, text: string): Scores {
    var s := Score(r, text);
    if s > 0 then AddRelated(Raise(found, r.name, s), r.relatedSkills) else found
  }

  // ---------------------------------------------------------------------
  // The reference meaning, independent of how the loop runs

  function Max(a: nat, b: nat): nat {
    if a < b then b else a
  }

  /** The highest score any record named `k` earns (0 when none scores). */
  function BestExplicit(cat: Catalogue, text: string, k: string): (m: nat)
    ensures m == 0 || m == AliasScore || m == ExactScore
  {
    if |cat| == 0 then 0
    else
      var last := cat[|cat| - 1];
      Max(BestExplicit(cat[..|cat| - 1], text, k), if last.name == k then Score(last, text) else 0)
  }

  /** Some record that scored lists `k` among its related skills. */
  predicate InferredBy(cat: Catalogue, text: string, k: string) {
    exists r :: r in cat && Score(r, text) > 0 && k in r.relatedSkills
  }

  /** What the matcher promises for `k`: its best explicit score, else 50 if inferred, else absent. */
  function Expected(cat: Catalogue, text: string, k: string): Option<nat> {
    var best := BestExplicit(cat, text, k);
    if best > 0 then Some(best)
    else if InferredBy(cat, text, k) then Some(InferredScore)
    else None
  }

  lemma InferredBySnoc(cat: Catalogue, text: string, k: string)
    requires |cat| > 0
    ensures InferredBy(cat, text, k) <==>
      InferredBy(cat[..|cat| - 1], text, k) ||
      (Score(cat[|cat| - 1], text) > 0 && k in cat[|cat| - 1].relatedSkills)
  {
    assert cat == cat[..|cat| - 1] + [cat[|cat| - 1]];
  }

  /** One step moves every key from its expected value on the prefix to its expected value on the longer catalogue. */
  lemma StepExpected(cat: Catalogue, text: string, found: Scores)
    requires |cat| > 0
    requires forall k :: Get(found, k) == Expected(cat[..|cat| - 1], text, k)
    ensures forall k :: Get(Step(found, cat[|cat| - 1], text), k) == Expected(cat, text, k)
  {
    var prefix := cat[..|cat| - 1];
    var r := cat[|cat| - 1];
    var s := Score(r, text);
    forall k
      ensures Get(Step(found, r, text), k) == Expected(cat, text, k)
    {
      InferredBySnoc(cat, text, k);
      var before := BestExplicit(prefix, text, k);
      var after := BestExplicit(cat, text, k);
      assert after == Max(before, if r.name == k then s else 0);
      if s > 0 {
        assert s == AliasScore || s == ExactScore;
        assert Step(found, r, text) == AddRelated(Raise(found, r.name, s), r.relatedSkills);
      }
    }
  }

  /**
   * `extract_skills`: the catalogue loop, run over the lower-cased text.
   * Every key holds exactly the value the reference meaning gives it.
   */
  function Extract(cat: Catalogue, text: string): (found: Scores)
    ensures UniqueKeys(found)
    ensures forall k :: Get(found, k) == Expected(cat, text, k)
    decreases |cat|
  {
    if |cat| == 0 then []
    else
      var prefix := Extract(cat[..|cat| - 1], text);
      StepExpected(cat, text, prefix);
      StepUnique(prefix, cat[|cat| - 1], text);
      Step(prefix, cat[|cat| - 1], text)
  }

  lemma {:induction false} AddRelatedUnique(found: Scores, related: seq<string>)
    requires UniqueKeys(found)
    ensures UniqueKeys(AddRelated(found, related))
    decreases |related|
  {
    if |related| > 0 {
      var next := if Get(found, related[0]).Some? then found else Put(found, related[0], InferredScore);
      if Get(found, related[0]).None? {
        PutUnique(found, related[0], InferredScore);
      }
      AddRelatedUnique(next, related[1..]);
    }
  }

  lemma StepUnique(found: Scores, r: SkillRecord, text: string)
    requires UniqueKeys(found)
    ensures UniqueKeys(Step(found, r, text))
  {
    var s := Score(r, text);
    if s > 0 {
      if Stored(found, r.name) < s {
        PutUnique(found, r.name, s);
        assert Raise(found, r.name, s) == Put(found, r.name, s);
      }
      AddRelatedUnique(Raise(found, r.name, s), r.relatedSkills);
    }
  }

  // ---------------------------------------------------------------------
  // Properties

  /** The best explicit score bounds every record named `k` and is reached by one of them. */
  lemma {:induction false} BestExplicitIsMax(cat: Catalogue, text: string, k: string)
    ensures forall r :: r in cat && r.name == k ==> Score(r, text) <= BestExplicit(cat, text, k)
    ensures BestExplicit(cat, text, k) > 0 ==>
      exists r :: r in cat && r.name == k && Score(r, text) == BestExplicit(cat, text, k)
    decreases |cat|
  {
    if |cat| > 0 {
      var prefix := cat[..|cat| - 1];
      BestExplicitIsMax(prefix, text, k);
      assert cat == prefix + [cat[|cat| - 1]];
    }
  }

  /** A record whose name occurs in the text ends with score 100. */
  lemma NameMatchScoresExact(cat: Catalogue, text: string, r: SkillRecord)
    requires r in cat && IsMatch(r.name, text)
    ensures Get(Extract(cat, text), r.name) == Some(ExactScore)
  {
    BestExplicitIsMax(cat, text, r.name);
  }

  /**
   * A name that no record of that name matches directly, but that an alias of
   * such a record matches, ends with 90 (never lowered to 50 by inference).
   */
  lemma AliasOnlyScoresAlias(cat: Catalogue, text: string, r: SkillRecord)
    requires r in cat && Score(r, text) == AliasScore
    requires forall q :: q in cat && q.name == r.name ==> !IsMatch(q.name, text)
    ensures Get(Extract(cat, text), r.name) == Some(AliasScore)
  {
    BestExplicitIsMax(cat, text, r.name);
  }

  /** Every stored value is 50, 90 or 100. */
  lemma ScoresAreTiers(cat: Catalogue, text: string, k: string)
    requires Get(Extract(cat, text), k).Some?
    ensures Get(Extract(cat, text), k).value in {InferredScore, AliasScore, ExactScore}
  {
  }

  /**
   * Keys are exactly the names of scoring records and the related skills of
   * scoring records: inference is one hop, and a record that did not score
   * contributes nothing.
   */
  lemma ExtractKeys(cat: Catalogue, text: string, k: string)
    ensures Get(Extract(cat, text), k).Some? <==>
      (exists r :: r in cat && r.name == k && Score(r, text) > 0) || InferredBy(cat, text, k)
  {
    BestExplicitIsMax(cat, text, k);
  }

  /** An inferred skill never replaces an explicit score. */
  lemma InferenceNeverOverwrites(cat: Catalogue, text: string, k: string)
    requires BestExplicit(cat, text, k) > 0
    ensures Get(Extract(cat, text), k) == Some(BestExplicit(cat, text, k))
  {
  }

  /** As a mapping, the result depends only on which records the catalogue holds, not their order. */
  lemma OrderIndependent(c1: Catalogue, c2: Catalogue, text: string)
    requires forall r :: r in c1 <==> r in c2
    ensures forall k :: Get(Extract(c1, text), k) == Get(Extract(c2, text), k)
  {
    forall k
      ensures BestExplicit(c1, text, k) == BestExplicit(c2, text, k)
    {
      BestExplicitIsMax(c1, text, k);
      BestExplicitIsMax(c2, text, k);
    }
  }

  /** An empty catalogue finds nothing. */
  lemma EmptyCatalogue(text: string)
    ensures Extract([], text) == []
  {
  }

  /** Empty text matches no keyword at all, so nothing is found whatever the catalogue. */
  lemma {:induction false} EmptyText(cat: Catalogue)
    ensures Extract(cat, "") == []
    decreases |cat|
  {
    forall kw: string
      ensures !IsMatch(kw, "")
    {
      EmptyKeyword("");
    }
    if |cat| > 0 {
      EmptyText(cat[..|cat| - 1]);
    }
  }

  /** "Pandas" occurs word-bounded in "I use Pandas daily.", at offset 6. */
  lemma PandasMatches(text: string)
    requires text == "I use Pandas daily."
    ensures IsMatch("Pandas", text)
  {
    PandasLower(text);
    assert BoundedAt("pandas", "i use pandas daily.", 6);
  }

  lemma PandasLower(text: string)
    requires text == "I use Pandas daily."
    ensures Lower("Pandas") == "pandas" && Lower(text) == "i use pandas daily."
  {
    assert Lower("Pandas") == "pandas";
  }

  /** "I use Pandas daily." against a one-record catalogue: Pandas at 100, NumPy inferred at 50. */
  lemma PandasScenario(text: string)
    requires text == "I use Pandas daily."
    ensures Extract([SkillRecord("Pandas", [], ["NumPy"], Some("Technical"))], text)
         == [("Pandas", 100), ("NumPy", 50)]
  {
    PandasMatches(text);
    var cat := [SkillRecord("Pandas", [], ["NumPy"], Some("Technical"))];
    assert cat[..0] == [];
    assert Extract(cat, text) == Step([], cat[0], text);
    assert Score(cat[0], text) == ExactScore;
    var raised: Scores := [("Pandas", 100)];
    assert Raise([], "Pandas", 100) == raised;
    var related: seq<string> := ["NumPy"];
    assert AddRelated(raised, related) == [("Pandas", 100), ("NumPy", 50)] by {
      assert Get(raised, "NumPy") == None;
      assert related[1..] == [];
    }
  }
}
