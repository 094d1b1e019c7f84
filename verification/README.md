# Résumé and job-description parsing core, modelled in Dafny

This project models the pure string and collection logic of a small résumé
screening toolkit, and proves properties of that model:

- **the confidence skill matcher** (`SkillExtractor.extract_skills`): a catalogue
  of skill records is folded over the text. A word-bounded name match scores 100.
  Otherwise the first matching alias scores 90. Each scoring record then adds its
  related skills at 50, but only when they are not yet keys. Scores are never lowered.
- **the categoriser** (`run_skill_pipeline` in `run_day9.py`): it builds a skill →
  category map in which the last writer wins. It buckets the extracted skills by
  substring tests on the lower-cased category, then sorts each bucket stably by
  confidence, highest first.
- **the section segmenter** (`ResumeSegmenter`): a header normaliser and a
  short-line classifier over the ordered pattern table. A walk over the lines
  starts in SUMMARY and fills seven buckets.
- **the job-description parser** (`jd_parser.py`):
  - the degree detector;
  - the "nice to have" split;
  - the synonym skill matcher;
  - `parse_jd` over the cleaned text.
- **the text janitor** (`clean_text`).
- **the pure fragments of the two older résumé parsers**:
  - flattening the skill file and choosing the extractor from the file name;
  - picking a name from the recogniser's entities, with the first-line fallback;
  - the word-bounded skill scan (`parser_engine_v2.py`);
  - the plain-substring skill scan (`resume_parser.py`).

One file per module:

| file | module |
|---|---|
| `wrappers.dfy` | `Option` |
| `chars.dfy` | ASCII character classes; `lower`, `strip`, `split` and word splitting |
| `word_match.dfy` | the shared `\b keyword \b` case-insensitive search |
| `ordered_dict.dfy` | a Python dict as an insertion-ordered list of pairs |
| `skill_extractor.dfy`, `stable_sort.dfy`, `categoriser.dfy` | matcher, stable sort, categoriser |
| `resume_segmenter.dfy`, `text_cleaner.dfy`, `jd_parser.dfy`, `parser_engine.dfy`, `resume_parser.dfy` | one module per parser |

**The search primitive.** Every word-bounded scanner shares `WordMatch.Search`.
`\b` holds at a position when the characters on its two sides differ in being
word characters; a position outside the text counts as non-word. Two quirks of
that definition are kept:
- A keyword ending in a non-word character ("C++") only matches when a word
  character follows it (`WordMatch.TrailingSymbolNeedsWordAfter`).
- The empty keyword matches every text that holds a word character.

**Behaviour of the code kept as written:**
- The per-bucket sort has no name tie-break. `sorted` is stable, so ties keep
  `extract_skills` insertion order.
- The segmenter stores each body line stripped, never the raw line.
- A related skill is added only when it is absent. It never replaces any score.
- Multi-word keywords are matched literally: a keyword's whitespace matches only the same whitespace in the text.
- A catalogue may repeat a name. The matcher keeps the highest explicit score.
- The nice-to-have half ends at a second marker. This is what `re.split(...)[1]` gives.
- `extract_skills` in the job-description parser returns `list(set)`, and so does
  the `parser_engine_v2` skill scan. Their order is arbitrary, so both are modelled as sets.

## Model

| member | source | states |
|---|---|---|
| `WordMatch.Search` | parsers/skill_extractor.py:59-65 | The left-to-right scan answers true exactly when the keyword occurs at some position with a `\b` boundary on both sides (the reference predicate `Occurs`). |
| `WordMatch.NotInsideLongerWord` | parsers/skill_extractor.py:63-65 | A keyword that starts and ends with a word character never matches glued to another word character on either side. |
| `WordMatch.JavaNotInJavaScript` | parsers/skill_extractor.py:63 | "java" is not found in "javascript". |
| `WordMatch.EmptyKeyword` | parsers/skill_extractor.py:64 | The empty keyword matches a text exactly when the text contains a word character. |
| `WordMatch.EmptyKeywordEmptyText` | parsers/skill_extractor.py:64-65 | The empty keyword does not match the empty text. |
| `WordMatch.TrailingSymbolNeedsWordAfter` | parsers/parser_engine_v2.py:122-123 | "c++" standing alone is not found, but "c++" followed by a word character ("c++11") is. |
| `WordMatch.IgnoreCaseOfLowered` | parsers/skill_extractor.py:25 | Lower-casing the keyword or the text first never changes a case-insensitive match. |
| `WordMatch.BoundedIsStandalone` | parsers/jd_parser.py:30 | For a keyword with word characters at both ends, `\b` on both sides means the same as "not glued to a word character". |
| `Chars.Strip` | parsers/text_cleaner.py:24 | The result has no leading or trailing whitespace, is no longer than the input, and is empty exactly when the input is all whitespace. |
| `Chars.StripBounds` | parsers/text_cleaner.py:24 | The result is one slice of the input, and everything cut off on either side is whitespace. |
| `Chars.StripPadded` | parsers/resume_segmenter.py:37 | Stripping whitespace padding from a stripped, non-empty text gives that text back. |
| `Chars.SplitOn` | parsers/resume_segmenter.py:73 | `split('\n')` gives at least one piece, and no piece contains the separator. |
| `Chars.JoinSplit` | parsers/resume_segmenter.py:73 | Joining the pieces of `split(sep)` with `sep` gives back the original text. |
| `Chars.SplitWithoutSep` | parsers/resume_segmenter.py:73 | A text without the separator splits into itself alone. |
| `Chars.SplitCons` | parsers/resume_segmenter.py:73 | A piece without the separator, then the separator, then a rest, splits into that piece followed by the split of the rest. |
| `Chars.SplitJoin` | parsers/resume_segmenter.py:73 | Splitting the join of separator-free pieces gives the pieces back: the other half of the round trip. |
| `Chars.SplitFirst` | parsers/parser_engine_v2.py:97 | The first piece of a split is a prefix of the text, followed by the separator when it is shorter than the text. |
| `Chars.Words` | parsers/resume_segmenter.py:44 | `split()` yields non-empty, whitespace-free words, and no word at all exactly when the text is all whitespace. |
| `Chars.WordsCons` | parsers/resume_segmenter.py:44 | A non-empty run of non-whitespace followed by whitespace or the end is the first word, and the rest splits on its own. |
| `Chars.WordsSkipSpace` | parsers/resume_segmenter.py:44 | Leading whitespace adds no word. |
| `Chars.TwoWords` | parsers/resume_segmenter.py:44 | A text with exactly one whitespace character, strictly inside it, has two words. |
| `Chars.FindIsContains` | parsers/jd_parser.py:74 | The first-occurrence search finds something exactly when the substring test (`in`) holds. |
| `OrderedDict.Get` | parsers/skill_extractor.py:46 | A lookup misses exactly when the key is not among the dict's keys. |
| `OrderedDict.Put` | parsers/skill_extractor.py:47 | After `d[k] = v`, `k` holds `v` and every other key holds what it held before. |
| `OrderedDict.PutKeys` | parsers/skill_extractor.py:47 | Assignment keeps the key order, and appends the key at the end only when it is new. |
| `SkillExtractor.FirstMatchingAlias` | parsers/skill_extractor.py:38-41 | The alias loop with its `break` selects the first matching alias: every earlier alias fails, and none matches when it returns nothing. |
| `SkillExtractor.Score` | parsers/skill_extractor.py:30-41 | A record scores 100 exactly when its name matches. It scores 90 exactly when the name fails and some alias matches. Otherwise it scores 0. |
| `SkillExtractor.Raise` | parsers/skill_extractor.py:46-47 | After the update the name holds the maximum of its old score and the new one. Nothing else changes. |
| `SkillExtractor.AddRelated` | parsers/skill_extractor.py:52-55 | Existing keys keep their values, absent related skills get 50, and no other key appears. |
| `SkillExtractor.Step` | parsers/skill_extractor.py:28-55 | One iteration of the catalogue loop: a scoring record raises its name and then adds its related skills; a record scoring 0 changes nothing. Its meaning is stated by `SkillExtractor.StepExpected`. |
| `SkillExtractor.Expected` | parsers/skill_extractor.py:44-55 | The reference value of a key, independent of loop order: the best explicit score, else 50 when a scoring record relates it, else absent. `SkillExtractor.Extract` proves the loop meets it. |
| `SkillExtractor.StepExpected` | parsers/skill_extractor.py:28-55 | One loop iteration moves every key from its reference value on the catalogue prefix to its reference value on the longer catalogue. |
| `SkillExtractor.Extract` | parsers/skill_extractor.py:19-57 | The keys are distinct. Every key holds its reference value: its best explicit score if one exists, otherwise 50 when a scoring record lists it as related, otherwise absent. |
| `SkillExtractor.BestExplicitIsMax` | parsers/skill_extractor.py:44-47 | The best explicit score of a name bounds every record of that name, and some record reaches it. |
| `SkillExtractor.NameMatchScoresExact` | parsers/skill_extractor.py:33-34 | A record whose name occurs word-bounded ends with 100. |
| `SkillExtractor.AliasOnlyScoresAlias` | parsers/skill_extractor.py:36-47 | A name reached only through an alias ends with 90. It is never lowered to 50 by inference. |
| `SkillExtractor.ScoresAreTiers` | parsers/skill_extractor.py:30-55 | Every stored value is 50, 90 or 100. |
| `SkillExtractor.InferenceNeverOverwrites` | parsers/skill_extractor.py:53-55 | A name with an explicit score keeps that score, whatever relates to it. |
| `SkillExtractor.ExtractKeys` | parsers/skill_extractor.py:44-55 | A key is present exactly when a scoring record has that name, or a scoring record lists it as related. Inference is one hop; a record that did not score contributes nothing. |
| `SkillExtractor.OrderIndependent` | parsers/skill_extractor.py:28-55 | As a mapping, the result depends only on which records the catalogue holds, not on their order. |
| `SkillExtractor.EmptyCatalogue` | parsers/skill_extractor.py:17-24 | An empty catalogue yields an empty result. |
| `SkillExtractor.EmptyText` | parsers/skill_extractor.py:24-25 | Empty text yields an empty result for every catalogue. |
| `SkillExtractor.PandasScenario` | parsers/skill_extractor.py:49-55 | One record "Pandas" related to "NumPy", on "I use Pandas daily.", gives Pandas at 100 and then NumPy at 50, in that order. |
| `StableSort.Sort` | run_day9.py:67-68 | The result is ordered by key, highest first, and is a permutation of the input. |
| `StableSort.SortStable` | run_day9.py:68 | For every key value, the entries holding it appear in the same relative order as in the input. |
| `StableSort.SortUnique` | run_day9.py:68 | The sort is the only key-descending arrangement that keeps every equal-key run in input order. |
| `Categoriser.WriteAll` | run_day9.py:25-26 | Writing a category under a list of keys adds exactly those keys, overwrites them, and leaves every other key as it was. |
| `Categoriser.CategoryMap` | run_day9.py:21-26 | A key is in the map exactly when some record names it or lists it as related. |
| `Categoriser.LastWriterWins` | run_day9.py:21-26 | A key holds the category (default "Technical") of the last record that names it or lists it. |
| `Categoriser.BucketOf` | run_day9.py:54-64 | Soft exactly when the lower-cased category contains "soft". Business exactly when it does not, but contains "business" or "management". Technical otherwise. |
| `Categoriser.MissingIsTechnical` | run_day9.py:54 | A skill absent from the map lands in the technical bucket. |
| `Categoriser.SoftTakesPrecedence` | run_day9.py:59-62 | A category containing both "soft" and "management" goes to the soft bucket. |
| `Categoriser.Distribute` | run_day9.py:49-64 | The bucket sizes add up to the number of extracted skills. |
| `Categoriser.DistributeSelects` | run_day9.py:49-64 | Each bucket receives exactly the extracted entries whose category maps to it, in insertion order. |
| `Categoriser.SelectedMembers` | run_day9.py:54-64 | An entry is in a bucket's selection exactly when it was extracted and its category maps to that bucket. |
| `Categoriser.SortAll` | run_day9.py:67-68 | Each bucket comes out sorted by confidence, highest first, as a permutation of itself. |
| `Categoriser.Categorise` | run_day9.py:43-68 | The bucket sizes add up to the number of extracted skills. Each bucket is sorted by confidence, highest first. Each bucket is a permutation of its selection. |
| `Categoriser.TiesKeepInsertionOrder` | run_day9.py:68 | Inside a bucket, entries of equal confidence keep the extraction order. There is no name tie-break. |
| `Categoriser.ExactlyOneBucket` | run_day9.py:49-64 | Every extracted skill is in the bucket of its category, and in no other bucket. |
| `Categoriser.CategorisedMembers` | run_day9.py:67-68 | Sorting leaves a bucket holding the same entries as its selection. |
| `Categoriser.SkillPipeline` | run_day9.py:40-73 | Extraction, category map, bucketing and sorting together keep the skill count (`total_skills_found`). |
| `ResumeSegmenter.KeepHeaderChars` | parsers/resume_segmenter.py:37 | Only letters and whitespace remain, each taken from the line. |
| `ResumeSegmenter.KeepHeaderCharsKeeps` | parsers/resume_segmenter.py:37 | A line of letters and whitespace passes through unchanged. |
| `ResumeSegmenter.KeepHeaderCharsDrops` | parsers/resume_segmenter.py:37 | A line with no letter or whitespace is removed entirely. |
| `ResumeSegmenter.CleanHeader` | parsers/resume_segmenter.py:35-37 | The cleaned header holds only letters and whitespace, is lower-case, and has no surrounding whitespace. |
| `ResumeSegmenter.FirstSection` | parsers/resume_segmenter.py:48-52 | The pattern loop returns the first table entry that lists the candidate, and nothing when no entry does. |
| `ResumeSegmenter.DetectHeader` | parsers/resume_segmenter.py:39-54 | A line of more than five words is never a header, and SUMMARY is never returned. |
| `ResumeSegmenter.DetectHeaderFirstMatch` | parsers/resume_segmenter.py:6-54 | For a short line: no header exactly when no pattern equals the cleaned line. Otherwise the section returned is the first, in declared order, whose pattern equals it. |
| `ResumeSegmenter.Classify` | parsers/resume_segmenter.py:75-88 | A line is blank exactly when it is all whitespace. A body line is stored stripped and non-empty. No line is a SUMMARY header. |
| `ResumeSegmenter.Collected` | parsers/resume_segmenter.py:75-88 | The reference bucket: the body lines among the first n whose section in force is the given one, in input order. `ResumeSegmenter.Walk` proves the loop builds it. |
| `ResumeSegmenter.Walk` | parsers/resume_segmenter.py:60-88 | Exactly the seven sections are keys. Each holds the body lines met while it was the section in force, starting in SUMMARY, in input order. |
| `ResumeSegmenter.Segment` | parsers/resume_segmenter.py:56-90 | Splitting on line feeds, classifying and walking gives the seven buckets of `Walk` for the text's lines. |
| `ResumeSegmenter.NoSummaryAfterHeader` | parsers/resume_segmenter.py:70-85 | Once any header has been seen, no later line is stored under SUMMARY. |
| `ResumeSegmenter.StoredCountsBody` | parsers/resume_segmenter.py:76-88 | The bucket lengths add up to the number of non-blank, non-header lines. |
| `ResumeSegmenter.StoredLinesAreClean` | parsers/resume_segmenter.py:76-88 | No stored line is empty or has surrounding whitespace. |
| `ResumeSegmenter.KeepHeaderCharsConcat` | parsers/resume_segmenter.py:37 | Removing non-letters works piece by piece over a concatenation. |
| `ResumeSegmenter.HeaderIgnoresDecoration` | parsers/resume_segmenter.py:37-41 | Decoration made only of symbols on either side (as in "*** Professional Experience ***") changes neither the cleaned header nor the detected section. |
| `ResumeSegmenter.SingleWordHeader` | parsers/resume_segmenter.py:41-45 | A one-word line of letters cleans to its lower-case form and counts as one word. |
| `ResumeSegmenter.WalkScenario` | parsers/resume_segmenter.py:75-88 | Over already classified lines (a body line, an EDUCATION header, a body line, a blank, a SKILLS header, a body line), the walk puts the first line in SUMMARY and each later body line in the bucket of the header before it, skipping the blank. |
| `ResumeSegmenter.FirstSectionAt` | parsers/resume_segmenter.py:48-52 | When entry i lists the candidate and no earlier entry does, the pattern loop returns entry i. |
| `ResumeSegmenter.DetectVia` | parsers/resume_segmenter.py:39-52 | A line whose cleaned form is short and first listed by entry i is detected as that entry's section. |
| `ResumeSegmenter.NoneByShape` | parsers/resume_segmenter.py:39-54 | A line whose cleaned form differs from every pattern in length or first letter is not a header. |
| `ResumeSegmenter.PaddedClean` | parsers/resume_segmenter.py:35-37 | A line of letters and whitespace with one whitespace character of padding on each side cleans to the lower-case of its inside. |
| `ResumeSegmenter.StripOneEach` | parsers/resume_segmenter.py:37 | Stripping one space from each end of a text whose second and second-to-last characters are visible leaves its inside. |
| `ResumeSegmenter.ProfessionalExperienceHeader` | parsers/resume_segmenter.py:99 | The sample line "*** Professional Experience ***", once stripped, is detected as EXPERIENCE. |
| `ResumeSegmenter.EducationHeader` | parsers/resume_segmenter.py:104 | The sample line "EDUCATION" is detected as EDUCATION. |
| `ResumeSegmenter.CalicutIsBody` | parsers/resume_segmenter.py:106 | The sample line "University of Calicut" is not a header, so it stays in the current bucket. |
| `ResumeSegmenter.TechnicalSkillsHeader` | parsers/resume_segmenter.py:108 | The sample line "Technical Skills" is detected as SKILLS. |
| `TextCleaner.NormaliseBullets` | parsers/text_cleaner.py:11 | Each of the five bullet glyphs becomes '-', every other character is kept, and the length is unchanged. |
| `TextCleaner.AsciiOnly` | parsers/text_cleaner.py:14 | The filtered text is all ASCII and no longer than the input. That a non-ASCII character is dropped, not replaced, is stated by `TextCleaner.NonAsciiDropped` and `TextCleaner.AsciiOnlyLength`. |
| `TextCleaner.NonAsciiDropped` | parsers/text_cleaner.py:14 | A non-ASCII character is dropped (`'ignore'`), not replaced. |
| `TextCleaner.NonAsciiDroppedBetween` | parsers/text_cleaner.py:14 | Dropping a non-ASCII character joins the filtered text on its two sides with nothing in between. |
| `TextCleaner.AsciiOnlyConcat` | parsers/text_cleaner.py:14 | The filter works piece by piece over a concatenation. |
| `TextCleaner.AsciiOnlyLength` | parsers/text_cleaner.py:14 | The filtered text is shorter than the input by exactly the number of non-ASCII characters. |
| `TextCleaner.AsciiOnlyFixes` | parsers/text_cleaner.py:14 | ASCII text passes the filter unchanged. |
| `TextCleaner.BulletBecomesDash` | parsers/text_cleaner.py:11-14 | A bullet glyph between ASCII text comes out of the first two steps as "-", with nothing else changed. |
| `TextCleaner.CollapseBlanks` | parsers/text_cleaner.py:19 | Every maximal run of spaces and tabs becomes one space. Its properties are stated by `TextCleaner.CollapseShape`, `TextCleaner.CollapseKeepsVisible` and `TextCleaner.CollapseFixes`. |
| `TextCleaner.CollapseShape` | parsers/text_cleaner.py:19 | After collapsing, no tab and no two adjacent spaces remain. ASCII stays ASCII, and the first character becomes a space exactly when it was a blank. |
| `TextCleaner.CollapseKeepsVisible` | parsers/text_cleaner.py:19 | Collapsing never changes the non-whitespace characters or their order. |
| `TextCleaner.CollapseFixes` | parsers/text_cleaner.py:19 | Text without tabs or double spaces is unchanged by collapsing. |
| `TextCleaner.SquashBlankLines` | parsers/text_cleaner.py:22 | A line feed, whitespace and a later line feed become one empty line, scanning left to right. Its properties are stated by `TextCleaner.SquashSquashes`, `TextCleaner.SquashKeepsVisible` and `TextCleaner.SquashFixes`. |
| `TextCleaner.SquashSquashes` | parsers/text_cleaner.py:22 | After squashing, two line feeds with only whitespace between them are adjacent. |
| `TextCleaner.SquashKeepsVisible` | parsers/text_cleaner.py:22 | Squashing never changes the non-whitespace characters or their order. |
| `TextCleaner.SquashNoDoubleSpace` | parsers/text_cleaner.py:19-22 | Squashing does not reintroduce two adjacent spaces. |
| `TextCleaner.SquashFixes` | parsers/text_cleaner.py:22 | Already squashed text is unchanged by squashing. |
| `TextCleaner.SquashedHasNoTripleNewline` | parsers/text_cleaner.py:22 | Squashed text never contains three line feeds in a row. |
| `TextCleaner.StripShape` | parsers/text_cleaner.py:24 | Stripping keeps every shape property: ASCII, no tab, no double space, squashed blank lines. |
| `TextCleaner.StripKeepsVisible` | parsers/text_cleaner.py:24 | Stripping never changes the non-whitespace characters. |
| `TextCleaner.Clean` | parsers/text_cleaner.py:3-24 | `clean_text`: empty text stays empty; otherwise bullets, the ASCII filter, blank runs, blank lines, then strip. Its properties are stated by `TextCleaner.CleanShape`, `TextCleaner.CleanKeepsVisible`, `TextCleaner.CleanEmpty` and `TextCleaner.CleanIdempotent`. |
| `TextCleaner.CleanShape` | parsers/text_cleaner.py:3-24 | The output is ASCII and has no tab or double space. It has at most one empty line in a row and no surrounding whitespace. |
| `TextCleaner.CleanKeepsVisible` | parsers/text_cleaner.py:3-24 | The output's non-whitespace characters are exactly those of the input after bullet normalisation and the ASCII filter. |
| `TextCleaner.CleanEmpty` | parsers/text_cleaner.py:7-24 | The output is empty exactly when the bullet-normalised ASCII input has no visible character, which covers the empty input. |
| `TextCleaner.CleanFixes` | parsers/text_cleaner.py:3-24 | Text already in the output shape is returned unchanged. |
| `TextCleaner.CleanIdempotent` | parsers/text_cleaner.py:3-24 | Cleaning twice is cleaning once. |
| `TextCleaner.CleanKeepsLoneNewline` | parsers/text_cleaner.py:16-24 | A single line feed between two visible ASCII characters survives: the two sides are cleaned separately and joined by "\n". |
| `JdParser.AnyFormBounded` | parsers/jd_parser.py:30-32 | The alternation with `\b` around it matches exactly when some alternative occurs with a boundary on both sides. |
| `JdParser.ExtractEducationAsWritten` | parsers/jd_parser.py:27-34 | The degree as the code computes it. Master's exactly when a master's form matches; Bachelor's exactly when none does but a bachelor's form matches; Not Specified otherwise. |
| `JdParser.ExtractEducation` | parsers/jd_parser.py:27-34 | The corrected degree detector. The same precedence as the code, with each form found when it stands alone, dotted abbreviations included. |
| `JdParser.EducationAgreesWithoutDots` | parsers/jd_parser.py:29-34 | On text with no '.', the corrected detector and the code agree. |
| `JdParser.DottedMastersMissed` | parsers/jd_parser.py:30-31 | On "M.S." the code reports Not Specified, while the corrected detector reports Master's Degree. |
| `JdParser.SplitNiceToHave` | parsers/jd_parser.py:73-80 | The split of the cleaned text into its mandatory and nice-to-have parts. Its meaning is stated by `JdParser.SplitWithoutMarker`, `JdParser.SplitCuts`, `JdParser.SplitHalvesMarkerFree` and `JdParser.SplitReassembles`. |
| `JdParser.SplitWithoutMarker` | parsers/jd_parser.py:74-80 | Without "nice to have" in any case, the mandatory part is the whole text and the nice-to-have part is empty. |
| `JdParser.SplitCuts` | parsers/jd_parser.py:73-77 | With the marker, the mandatory part ends at its first occurrence. The nice-to-have part starts after the marker and one optional ':', and ends at the next occurrence or the end. |
| `JdParser.SplitHalvesMarkerFree` | parsers/jd_parser.py:75-77 | Neither part contains the marker in any case. |
| `JdParser.SplitReassembles` | parsers/jd_parser.py:75-77 | The text is the mandatory part, a marker separator, the nice-to-have part, and a rest that is empty or starts with the marker. |
| `JdParser.AnySynonymFinds` | parsers/jd_parser.py:40-45 | The synonym loop with its `break` reports a hit exactly when some synonym matches word-bounded and case-insensitively. |
| `JdParser.Required` | parsers/jd_parser.py:36-46 | The reference set: the official names with at least one synonym found. `JdParser.ExtractSkills` proves the loop computes it. |
| `JdParser.ExtractSkills` | parsers/jd_parser.py:36-46 | The result is the set of keys with at least one matching synonym. Only keys appear, each once, and a key is never searched for itself unless it is listed among its synonyms. |
| `JdParser.NothingRequiredOfEmptyText` | parsers/jd_parser.py:38-46 | Empty text requires no skill. |
| `JdParser.MlNotInHtml` | parsers/jd_parser.py:41-43 | "ML" is not found in "HTML". |
| `JdParser.ParseJd` | parsers/jd_parser.py:48-86 | The degree is the code's detector (`JdParser.ExtractEducationAsWritten`) on the cleaned text. Each half of the split is scanned against the dictionary. Without the marker the nice-to-have skills are empty. |
| `JdParser.ParseJdIntended` | parsers/jd_parser.py:48-86 | The same pipeline with the corrected degree detector. It agrees with `JdParser.ParseJd` on every posting whose cleaned text has no '.'. |
| `ParserEngine.Flatten` | parsers/parser_engine_v2.py:22-25 | Every category's skills, one list after another, in category order. Its properties are stated by `ParserEngine.FlattenConcat`, `ParserEngine.FlattenMembers` and `ParserEngine.FlattenLength`. |
| `ParserEngine.LoadSkills` | parsers/parser_engine_v2.py:13-28 | A missing skill file gives the empty list. A present file gives its flattening, as long as all category lists together. |
| `ParserEngine.LoadSkillsMembers` | parsers/parser_engine_v2.py:13-28 | A skill is in the loaded list exactly when some category of the file lists it. |
| `ParserEngine.FlattenConcat` | parsers/parser_engine_v2.py:22-25 | Flattening two parts of the file concatenates their flattenings, in category order. |
| `ParserEngine.FlattenMembers` | parsers/parser_engine_v2.py:22-25 | A skill is in the flattened list exactly when some category lists it. |
| `ParserEngine.FlattenLength` | parsers/parser_engine_v2.py:22-25 | The flattened list is as long as all category lists together. |
| `ParserEngine.FileKindOf` | parsers/parser_engine_v2.py:62-67 | PDF exactly when the name ends in ".pdf". Word exactly when it ends in ".docx" but not ".pdf". Nothing when it ends in neither. The test is case-sensitive. |
| `ParserEngine.UpperCaseExtensionSkipped` | parsers/parser_engine_v2.py:62-67 | "CV.PDF" is not recognised. |
| `ParserEngine.FirstLine` | parsers/parser_engine_v2.py:97 | `split('\n')[0]` contains no line feed, is a prefix of the text, and is followed by a line feed when it is shorter than the text. |
| `ParserEngine.FirstAcceptableFrom` | parsers/parser_engine_v2.py:92-109 | From a position on, the loop stops at the first PERSON entity whose candidate is neither a skill nor a document word, and at nothing when there is none. |
| `ParserEngine.FirstAcceptable` | parsers/parser_engine_v2.py:92-109 | The whole entity loop stops at the first acceptable entity, and at nothing when there is none. |
| `ParserEngine.PickName` | parsers/parser_engine_v2.py:92-109 | No name exactly when no entity is acceptable. A name has no line feed, is not in the skill list, and does not lower-case to a document word. |
| `ParserEngine.PickNameFirst` | parsers/parser_engine_v2.py:92-109 | A picked name is the candidate of a PERSON entity, and every earlier entity was rejected. |
| `ParserEngine.Fallback` | parsers/parser_engine_v2.py:110-115 | A found, non-empty name is kept. Otherwise the stripped first line is used when it has no '@' and is shorter than 50. A name from the fallback has no '@' or line feed and no surrounding whitespace. |
| `ParserEngine.ScanSkills` | parsers/parser_engine_v2.py:119-126 | The scan finds exactly the list entries that occur word-bounded, case-insensitively, as a set. |
| `ParserEngine.ParseResume` | parsers/parser_engine_v2.py:55-128 | Nothing exactly when the file type is not recognised. Otherwise the file name is kept, the skills are the scan of the cleaned text, and the name is the entity pick with its fallback. |
| `ResumeParser.ScanSkills` | parsers/resume_parser.py:48-55 | An entry is reported exactly when its lower-case form is a plain substring of the lower-cased text, and the report keeps list order. |
| `ResumeParser.ExtractSkills` | parsers/resume_parser.py:42-57 | Over the fixed sixteen-entry list: reported exactly when a plain substring. The report is a subsequence of the list. |
| `ResumeParser.ScanDistinct` | parsers/resume_parser.py:52-55 | A list without repeats gives a report without repeats. |
| `ResumeParser.ExtractSkillsDistinct` | parsers/resume_parser.py:42-55 | Each skill is reported at most once. |
| `ResumeParser.NothingInEmptyText` | parsers/resume_parser.py:50-55 | A list with no empty entry reports nothing for the empty text. |
| `ResumeParser.EmptyTextNoSkills` | parsers/resume_parser.py:42-55 | The fixed list reports nothing for the empty text. |
| `ResumeParser.PrefixReported` | parsers/resume_parser.py:54 | An entry whose lower-case form begins a reported entry's is reported too. |
| `ResumeParser.JavaWithJavaScript` | parsers/resume_parser.py:54 | With no word boundary, "Java" is reported whenever "JavaScript" is. |
| `ResumeParser.BoundedMatchIsReported` | parsers/resume_parser.py:54 | Every word-bounded match the later parsers find is also a plain-substring match here. |

## Left out

- Text extraction from PDF and Word files, and the spaCy entity recogniser. These are foreign libraries. The extracted text and the entity list (label and text) are parameters of `ParserEngine.ParseResume`.
- Every file read and write, directory listing and path building: the skill, synonym and catalogue JSON files, the CSV and JSON outputs, `os.path.basename`, `load_skill_synonyms`, and the `__main__` blocks. The loaded data are parameters (`Option<...>` where the code handles a missing file).
- `run_day8.py`, `utils/logger.py` and `tests/test_setup.py`. They orchestrate, log and check the environment, with no logic of their own.
- ParserEngine.ParseResume: the e-mail and phone regexes (parser_engine_v2.py:82-88) are not modelled. Neither are the résumé parser's contact regexes (resume_parser.py:22-27). Their backtracking, leftmost-match semantics would dominate the model.
- JdParser.ParseJd: the job-title regex (jd_parser.py:68-70) and `extract_experience` (jd_parser.py:17-25) are not modelled, for the same reason.
- Categoriser.Categorise: confidences stay integer percentages (100, 90, 50). The code's `round(score / 100.0, 2)` gives 1.0, 0.9 and 0.5, which order the same way. Floating point is not modelled.
- JdParser.ExtractSkills: the code returns `list(set)`, whose order is unspecified. The result is modelled as a set.
- ParserEngine.ScanSkills: the code returns `list(set)`, whose order is unspecified. The result is modelled as a set.
- TextCleaner.Clean: a `None` argument (also "falsy", giving "") is outside the string type. Only the empty string is modelled.
- Unicode: `lower`, `strip`, `split()`, `\w` and `\s` are modelled over ASCII. Other characters are neither word characters nor whitespace, and are left unchanged by lower-casing. `\s` in the blank-line squash is therefore the ASCII whitespace set, which is all that remains after the ASCII filter.
- SkillExtractor.Extract: a catalogue record without a "name" (a `KeyError` in the code) cannot be built. Missing "aliases" and "related_skills" are empty lists, and a missing "category" is `None`.
- Duplicate keys in the JSON files are not modelled: a synonym dictionary or skill file is a list of pairs read in file order.

## Findings

| source | as written | input that shows it | evidently intended | confidence | as-written member | corrected member |
|---|---|---|---|---|---|---|
| parsers/jd_parser.py:30-32 | The pattern `\b(master's\|master\|m\.s\.\|ms)\b` puts `\b` after the final '.' of "m.s.". The Bachelor pattern does the same for "b.s.". That boundary needs a word character right after the dot, so a stand-alone abbreviation never matches. | "M.S." gives "Not Specified" | "M.S." (and "B.S.") standing alone is recognised, giving "Master's Degree" | not executed | `JdParser.DottedMastersMissed` (on `JdParser.ExtractEducationAsWritten`) | `JdParser.ExtractEducation`, used by `JdParser.ParseJdIntended`; `JdParser.EducationAgreesWithoutDots` shows the two agree on text without '.' |
