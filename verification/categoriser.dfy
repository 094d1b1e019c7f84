/**
 * The pure part of the skill pipeline (`run_skill_pipeline`): a name to
 * category map built from the catalogue, bucketing of the extracted skills by
 * substring tests on the lower-cased category, and a stable sort of each
 * bucket by confidence, highest first.
 *
 * Confidence stays an integer percentage (the source divides by 100 and
 * rounds to two decimals; for the scores 50, 90 and 100 that mapping is
 * strictly increasing, so the order is the same).
 */
module Categoriser {
  import opened Wrappers
  import opened Chars
  import opened OrderedDict
  import opened SkillExtractor
  import opened StableSort

  const DefaultCategory := "Technical"

  /** `skill.get("category", "Technical")`. */
  function CategoryOf(r: SkillRecord): string {
    match r.category
    case Some(c) => c
    case None => DefaultCategory
  }

  /** The record writes `k` into the category map: as its name or as one of its related skills. */
  predicate Mentions(r: SkillRecord, k: string) {
    r.name == k || k in r.relatedSkills
  }

  /** The inner loop: every key of `keys` is set to `c`. */
  function WriteAll(m: map<string, string>, keys: seq<string>, c: string): (r: map<string, string>)
    ensures r.Keys == m.Keys + set k | k in keys
    ensures forall k :: k in r ==> r[k] == if k in keys then c else m[k]
    decreases |keys|
  {
    if |keys| == 0 then m else WriteAll(m[keys[0] := c], keys[1..], c)
  }

  /** The category map, written record by record. */
  function CategoryMap(cat: Catalogue): (m: map<string, string>)
    ensures forall k :: k in m <==> exists i :: 0 <= i < |cat| && Mentions(cat[i], k)
    decreases |cat|
  {
    if |cat| == 0 then map[]
    else
      var r := cat[|cat| - 1];
      var prev := CategoryMap(cat[..|cat| - 1]);
      assert forall k :: (exists i :: 0 <= i < |cat| && Mentions(cat[i], k)) <==>
        (exists i :: 0 <= i < |cat| - 1 && Mentions(cat[i], k)) || Mentions(r, k);
      WriteAll(prev[r.name := CategoryOf(r)], r.relatedSkills, CategoryOf(r))
  }

  /** Last writer wins: a key holds the category of the last record that mentions it. */
  lemma {:induction false} LastWriterWins(cat: Catalogue, i: nat, k: string)
    requires i < |cat| && Mentions(cat[i], k)
    requires forall j :: i < j < |cat| ==> !Mentions(cat[j], k)
    ensures k in CategoryMap(cat) && CategoryMap(cat)[k] == CategoryOf(cat[i])
    decreases |cat|
  {
    if i < |cat| - 1 {
      LastWriterWins(cat[..|cat| - 1], i, k);
    }
  }

  /** `category_map.get(name, "Technical")`. */
  function CategoryFor(m: map<string, string>, skill: string): string {
    if skill in m then m[skill] else DefaultCategory
  }

  datatype Bucket = TechnicalSkills | BusinessSkills | SoftSkills

  /** "soft" first, then "business" or "management", else technical, decided on the lower-cased category. */
  function BucketOf(category: string): (b: Bucket)
    ensures b == SoftSkills <==> Contains(Lower(category), "soft")
    ensures b == BusinessSkills <==>
      !Contains(Lower(category), "soft") &&
      (Contains(Lower(category), "business") || Contains(Lower(category), "management"))
  {
    var c := Lower(category);
    if Contains(c, "soft") then SoftSkills
    else if Contains(c, "business") || Contains(c, "management") then BusinessSkills
    else TechnicalSkills
  }

  /** A needle whose first character never occurs in the text does not occur in it. */
  lemma FirstCharAbsent(h: string, n: string)
    requires |n| > 0 && forall i :: 0 <= i < |h| ==> h[i] != n[0]
    ensures !Contains(h, n)
  {
    forall i | 0 <= i <= |h| - |n|
      ensures !OccursAt(n, h, i)
    {
      assert h[i..i + |n|][0] == h[i];
    }
  }

  /** A skill missing from the category map is treated as technical. */
  lemma MissingIsTechnical(m: map<string, string>, skill: string)
    requires skill !in m
    ensures BucketOf(CategoryFor(m, skill)) == TechnicalSkills
  {
    var c := Lower(DefaultCategory);
    assert c == "technical";
    FirstCharAbsent(c, "soft");
    FirstCharAbsent(c, "business");
    FirstCharAbsent(c, "management");
  }

  /** "soft" takes precedence: a category naming both soft and management is soft. */
  lemma SoftTakesPrecedence()
    ensures BucketOf("Soft Skills / Management") == SoftSkills
  {
    assert Lower("Soft Skills / Management")[0..4] == "soft";
    assert OccursAt("soft", Lower("Soft Skills / Management"), 0);
  }

  /** One output entry: the skill and its confidence in percent. */
  datatype Entry = Entry(skill: string, confidence: nat)

  function Confidence(e: Entry): int {
    e.confidence
  }

  /** The bucket an extracted skill belongs in. */
  function BucketFor(m: map<string, string>, skill: string): Bucket {
    BucketOf(CategoryFor(m, skill))
  }

  datatype Buckets = Buckets(technical: seq<Entry>, business: seq<Entry>, soft: seq<Entry>) {

    function Of(b: Bucket): seq<Entry> {
      match b
      case TechnicalSkills => technical
      case BusinessSkills => business
      case SoftSkills => soft
    }

    function Append(b: Bucket, e: Entry): (r: Buckets)
      ensures r.Of(b) == Of(b) + [e]
      ensures forall b' :: b' != b ==> r.Of(b') == Of(b')
    {
      match b
      case TechnicalSkills => this.(technical := technical + [e])
      case BusinessSkills => this.(business := business + [e])
      case SoftSkills => this.(soft := soft + [e])
    }

    function Size(): nat {
      |technical| + |business| + |soft|
    }
  }

  /** The bucketing loop: each extracted skill, in insertion order, is appended to its bucket. */
  function Distribute(extracted: Scores, m: map<string, string>): (r: Buckets)
    ensures r.Size() == |extracted|
    decreases |extracted|
  {
    if |extracted| == 0 then Buckets([], [], [])
    else
      var (name, score) := extracted[|extracted| - 1];
      Distribute(extracted[..|extracted| - 1], m).Append(BucketFor(m, name), Entry(name, score))
  }

  /** The entry an extracted skill contributes to bucket `b`: itself, or nothing. */
  function PickEntry(x: (string, nat), m: map<string, string>, b: Bucket): seq<Entry> {
    if BucketFor(m, x.0) == b then [Entry(x.0, x.1)] else []
  }

  /** Reference: the entries of one bucket, in insertion order. */
  function Selected(extracted: Scores, m: map<string, string>, b: Bucket): (r: seq<Entry>)
    ensures |r| <= |extracted|
  {
    if |extracted| == 0 then []
    else PickEntry(extracted[0], m, b) + Selected(extracted[1..], m, b)
  }

  lemma {:induction false} SelectedSnoc(extracted: Scores, m: map<string, string>, b: Bucket)
    requires |extracted| > 0
    ensures Selected(extracted, m, b) ==
      Selected(extracted[..|extracted| - 1], m, b) + PickEntry(extracted[|extracted| - 1], m, b)
    decreases |extracted|
  {
    var n := |extracted|;
    if n > 1 {
      var init := extracted[..n - 1];
      SelectedSnoc(extracted[1..], m, b);
      assert extracted[1..][..n - 2] == init[1..];
      assert extracted[1..][n - 2] == extracted[n - 1];
      assert init[0] == extracted[0];
      var h := PickEntry(extracted[0], m, b);
      assert Selected(init, m, b) == h + Selected(init[1..], m, b);
    } else {
      assert extracted[..n - 1] == [];
      assert extracted[1..] == [];
    }
  }

  /** The loop puts into each bucket exactly the entries selected for it, in insertion order. */
  lemma {:induction false} DistributeSelects(extracted: Scores, m: map<string, string>, b: Bucket)
    ensures Distribute(extracted, m).Of(b) == Selected(extracted, m, b)
    decreases |extracted|
  {
    if |extracted| > 0 {
      DistributeSelects(extracted[..|extracted| - 1], m, b);
      SelectedSnoc(extracted, m, b);
    }
  }

  /** Each bucket sorted by confidence, highest first, stably. */
  function SortAll(d: Buckets): (r: Buckets)
    ensures forall b :: SortedDesc(r.Of(b), Confidence)
    ensures forall b :: multiset(r.Of(b)) == multiset(d.Of(b))
    ensures r.Size() == d.Size()
  {
    Buckets(Sort(d.technical, Confidence), Sort(d.business, Confidence), Sort(d.soft, Confidence))
  }

  /** The formatting step: bucket, then sort each bucket. */
  function Categorise(extracted: Scores, m: map<string, string>): (r: Buckets)
    ensures r.Size() == |extracted|
    ensures forall b :: SortedDesc(r.Of(b), Confidence)
    ensures forall b :: multiset(r.Of(b)) == multiset(Selected(extracted, m, b))
  {
    DistributeSelects(extracted, m, TechnicalSkills);
    DistributeSelects(extracted, m, BusinessSkills);
    DistributeSelects(extracted, m, SoftSkills);
    SortAll(Distribute(extracted, m))
  }

  /** Ties keep insertion order: within a bucket, entries of equal confidence appear as they were extracted. */
  lemma TiesKeepInsertionOrder(extracted: Scores, m: map<string, string>, b: Bucket, v: int)
    ensures WithKey(Categorise(extracted, m).Of(b), Confidence, v) == WithKey(Selected(extracted, m, b), Confidence, v)
  {
    DistributeSelects(extracted, m, b);
    SortStable(Distribute(extracted, m).Of(b), Confidence, v);
  }

  /** Each extracted skill is in the bucket of its category, and in no other bucket. */
  lemma ExactlyOneBucket(extracted: Scores, m: map<string, string>, i: nat)
    requires UniqueKeys(extracted) && i < |extracted|
    ensures Entry(extracted[i].0, extracted[i].1) in Categorise(extracted, m).Of(BucketFor(m, extracted[i].0))
    ensures forall b, e :: b != BucketFor(m, extracted[i].0) && e in Categorise(extracted, m).Of(b) ==>
      e.skill != extracted[i].0
  {
    var k := extracted[i].0;
    forall b
      ensures forall e :: e in Categorise(extracted, m).Of(b) <==> e in Selected(extracted, m, b)
    {
      CategorisedMembers(extracted, m, b);
    }
    forall b
      ensures (Entry(k, extracted[i].1) in Selected(extracted, m, b)) <==> b == BucketFor(m, k)
      ensures forall e :: e in Selected(extracted, m, b) && e.skill == k ==> b == BucketFor(m, k)
    {
      SelectedOwnBucket(extracted, m, i, b);
    }
  }

  /** A bucket of the result holds the same entries as its selection. */
  lemma CategorisedMembers(extracted: Scores, m: map<string, string>, b: Bucket)
    ensures forall e :: e in Categorise(extracted, m).Of(b) <==> e in Selected(extracted, m, b)
  {
    var c := Categorise(extracted, m).Of(b);
    assert multiset(c) == multiset(Selected(extracted, m, b));
    forall e
      ensures e in c <==> e in Selected(extracted, m, b)
    {
      assert e in c <==> e in multiset(c);
    }
  }

  /** With distinct keys, the selection of bucket `b` holds the `i`-th skill only if `b` is its bucket. */
  lemma SelectedOwnBucket(extracted: Scores, m: map<string, string>, i: nat, b: Bucket)
    requires UniqueKeys(extracted) && i < |extracted|
    ensures (Entry(extracted[i].0, extracted[i].1) in Selected(extracted, m, b)) <==> b == BucketFor(m, extracted[i].0)
    ensures forall e :: e in Selected(extracted, m, b) && e.skill == extracted[i].0 ==> b == BucketFor(m, extracted[i].0)
  {
    SelectedMembers(extracted, m, b);
    KeysIndex(extracted, i);
  }

  /** The members of a selection are the extracted entries whose skill belongs in that bucket. */
  lemma {:induction false} SelectedMembers(extracted: Scores, m: map<string, string>, b: Bucket)
    ensures forall e :: e in Selected(extracted, m, b) <==>
      (e.skill, e.confidence) in extracted && BucketFor(m, e.skill) == b
    decreases |extracted|
  {
    if |extracted| > 0 {
      SelectedMembers(extracted[1..], m, b);
      var (name, score) := extracted[0];
      var head := if BucketFor(m, name) == b then [Entry(name, score)] else [];
      assert Selected(extracted, m, b) == head + Selected(extracted[1..], m, b);
      assert extracted == [extracted[0]] + extracted[1..];
      forall e
        ensures e in Selected(extracted, m, b) <==> (e.skill, e.confidence) in extracted && BucketFor(m, e.skill) == b
      {
        assert e in head <==> e == Entry(name, score) && BucketFor(m, name) == b;
      }
    }
  }

  /** The whole pipeline: extract, map categories, bucket and sort. */
  function SkillPipeline(cat: Catalogue, text: string): (r: Buckets)
    ensures r.Size() == |Extract(cat, text)|
  {
    Categorise(Extract(cat, text), CategoryMap(cat))
  }
}
