# Resume skill matcher — a Dafny model of the matching and scoring engine

This project models the pure core of the resume skill matcher: the functions that
turn resume text and job-description text into skills, role and seniority labels,
requirement lists and scores, the decisions the match page takes from those
results, the report helpers, and the skills service (text normalisation, table
lookup, the CSV importer's upsert rule and the normalise endpoint).

Text is `seq<char>`; case, whitespace and word boundaries follow ASCII rules. Python's substring test, `str.count`, `strip`, `split()`,
`lower()`, `re.split` over a character class, `str.join`, `sorted` and the `\b`
anchor are written out as Dafny functions (module `Strings`), with lemmas tying each
one to an independent description. Percentages are exact `real`s.

Modules:

- `Strings` (strings.dfy) — the Python string primitives and their laws.
- `Collections` (collections.dfy) — `set(list)`, list filtering and counting, `Option`.
- `SortedStrings` (sorted.dfy) — strictly increasing string lists, the result of `sorted(set)`.
- `Matcher` (matcher.dfy) — `extract_skills`, `calculate_match_score`, `detect_job_role`,
  `detect_seniority`, `extract_requirements`, `requirement_match_score`,
  `role_fit_score`, `generate_skill_roadmap`.
- `Scorecard` (scorecard.dfy) — `ats_scorecard`.
- `MatchView` (view.dfy) — the decisions of `upload_resume_and_jd` from the skill
  lists onwards.
- `Reports` (reports.dfy) — `compare_resume_vs_jd`, `generate_resume_insights`,
  `keyword_density`, `section_feedback`.
- `SectionScoring` (section_scoring.dfy) — `score_resume_sections`.
- `SkillModel`, `SkillText`, `SkillImport`, `SkillApi` — the skill record,
  `normalize_text` / `extract_skills_from_text`, the import command, and
  `SkillNormalizeAPIView.post`.

The skill taxonomy that `extract_skills` reads (`MASTER_SKILLS`) is a parameter of
type `map<string, seq<string>>`, and the skill table of the skills service is a
parameter `seq<Skill>`; `skills/master_skills.py` is not part of this model.

## Model

| member | source | states |
|---|---|---|
| Strings.OccursIff | resume_skill_matcher/matcher/utils.py:120 | The substring test `p in s` holds exactly when `p` matches `s` at some position. |
| Strings.OccursInConcat | resume_skill_matcher/matcher/utils.py:176 | A substring of a text stays a substring of any text that contains it. |
| Strings.CountPositiveIff | resume_skill_matcher/matcher/utils.py:212 | `s.count(p)` for non-empty `p` is positive exactly when `p in s`. |
| Strings.CountFits | resume_skill_matcher/matcher/reports/ats.py:6 | Counted occurrences do not overlap: count times pattern length is at most the text length. |
| Strings.StripSpec | resume_skill_matcher/matcher/utils.py:156 | `strip()` leaves no whitespace at either end and removes only whitespace on both sides. |
| Strings.StripIdempotent | resume_skill_matcher/matcher/utils.py:156 | Stripping twice is stripping once. |
| Strings.StripEmptyIff | resume_skill_matcher/matcher/utils.py:217 | `s.strip()` is empty exactly when `s` is all whitespace. |
| Strings.WordsAreWords | resume_skill_matcher/matcher/utils.py:175 | Every token of `split()` is non-empty and holds no whitespace. |
| Strings.WordsConcat | resume_skill_matcher/matcher/utils.py:175 | The tokens of `split()`, concatenated, are the text with all whitespace removed. |
| Strings.SplitOnSpec | resume_skill_matcher/matcher/utils.py:152 | `re.split` over a character class gives delimiter-free fragments, one more than there are delimiters, that concatenate to the text without its delimiters. |
| Strings.JoinSplitOn | resume_skill_matcher/skills/management/commands/import_skills.py:31 | Joining the pieces of a one-character split with that character gives the text back. |
| Strings.SplitOnJoin | resume_skill_matcher/skills/management/commands/import_skills.py:31 | Splitting a join of separator-free pieces gives the pieces back. |
| Strings.JoinLength | resume_skill_matcher/matcher/reports/insights.py:19 | A join is as long as its pieces plus one separator between neighbours. |
| Strings.JoinContains | resume_skill_matcher/matcher/reports/insights.py:19 | Every piece of a join is a substring of it. |
| Strings.LowerUpper | resume_skill_matcher/matcher/ai/section_scoring.py:12 | Lower-casing an upper-cased text equals lower-casing the text. |
| Strings.LessTotal | resume_skill_matcher/skills/utils.py:33 | Python's string order relates any two different strings one way or the other. |
| Strings.LessTransitive | resume_skill_matcher/skills/utils.py:33 | Python's string order is transitive. |
| Collections.ToSetCard | resume_skill_matcher/matcher/utils.py:109-110 | `set(xs)` has at most `len(xs)` elements, and exactly that many iff `xs` has no duplicate. |
| Collections.Filter | resume_skill_matcher/matcher/utils.py:155-161 | A list comprehension with a condition is an in-order selection of the list, only of elements that pass, with as many entries as there are passing elements, so a passing element that repeats is kept every time. |
| Collections.MapFilterMembers | resume_skill_matcher/skills/management/commands/import_skills.py:29-33 | A filtered and mapped list holds exactly the images of the elements that pass. |
| Collections.CountWhereAll | resume_skill_matcher/matcher/utils.py:174-177 | A generator count equals the list length iff every element passes. |
| Collections.CountWhereNone | resume_skill_matcher/matcher/utils.py:174-177 | A generator count is zero iff no element passes. |
| SortedStrings.Insert | resume_skill_matcher/skills/utils.py:29-33 | Adding a name to a strictly increasing list keeps it strictly increasing and adds exactly that name. |
| SortedStrings.SortedUnique | resume_skill_matcher/skills/utils.py:33 | A set of strings has only one strictly increasing listing, so `sorted(found)` is determined by the set. |
| Matcher.WholeWordIsSubstring | resume_skill_matcher/matcher/utils.py:97 | A `\b`-delimited alias match is in particular a substring match. |
| Matcher.ExtractSkills | resume_skill_matcher/matcher/utils.py:91-100 | Only taxonomy keys are returned, without duplicates; a key is returned iff one of its aliases occurs in the lower-cased text with a word boundary on both sides. |
| Matcher.ExtractSkillsIgnoresCase | resume_skill_matcher/matcher/utils.py:93 | Upper-casing the text finds the same skills. |
| Matcher.ExtractSkillsMonotone | resume_skill_matcher/matcher/utils.py:95-98 | A taxonomy with more skills or aliases finds at least as many skills. |
| Matcher.OverlapPercent | resume_skill_matcher/matcher/utils.py:109-110 | The value is 100 times the number of distinct shared skills over the length of the job skill list; it lies in [0, 100]; 100 means every job skill is in the resume, and conversely when the job skills are distinct. |
| Matcher.CalculateMatchScore | resume_skill_matcher/matcher/utils.py:105-110 | The score lies in [0, 100]; with job skills it is the overlap percentage (distinct shared skills over the job list's length, times 100); with no job skill it is min(60, 5 per resume skill); with distinct job skills it is 100 iff every job skill is in the resume. |
| Matcher.Percent | resume_skill_matcher/matcher/utils.py:179 | The percentage of n out of d is 100·n/d (equivalently, times d it gives 100·n); it lies in [0, 100], is 100 iff n is the whole and 0 iff n is 0. |
| Matcher.PercentMonotone | resume_skill_matcher/matcher/utils.py:179 | A larger share of the same whole gives a larger percentage. |
| Matcher.KeywordHitsZeroIff | resume_skill_matcher/matcher/utils.py:120 | A role scores 0 exactly when none of its phrases is a substring. |
| Matcher.KeywordHitsAllIff | resume_skill_matcher/matcher/utils.py:208 | The hit count equals the number of phrases exactly when every phrase is a substring. |
| Matcher.FirstMaxIndex | resume_skill_matcher/matcher/utils.py:122 | `max(scores, key=scores.get)` picks a maximal score with every earlier score strictly smaller. |
| Matcher.FirstMaxUnique | resume_skill_matcher/matcher/utils.py:122 | Only one position is first among the maxima. |
| Matcher.DetectRoleIndex | resume_skill_matcher/matcher/utils.py:115-123 | The chosen role is the first maximal one and has a positive score; "Unknown" iff every role scores 0. |
| Matcher.DetectRoleIn | resume_skill_matcher/matcher/utils.py:115-123 | Over any role table: "Unknown" when no role has a hit, otherwise the label of the first role with the most hits. |
| Matcher.DetectJobRoleSpec | resume_skill_matcher/matcher/utils.py:23-56 | With the built-in table the answer is "Unknown" iff every role's hit count is 0, else the first role in table order with the most hits. |
| Matcher.DetectJobRolePythonExample | resume_skill_matcher/matcher/utils.py:24-26 | The text "python" ties Data Scientist with Python Developer and gives Data Scientist. |
| Matcher.DetectSeniority | resume_skill_matcher/matcher/utils.py:128-140 | Intern, Junior, Mid and Senior are tried in that order on the lower-cased text; each is chosen iff its markers occur and no earlier level's do. |
| Matcher.SeniorityLabels | resume_skill_matcher/matcher/utils.py:128-140 | The label is one of the five names and never "Unknown". |
| Matcher.SeniorInternIsIntern | resume_skill_matcher/matcher/utils.py:131-132 | "Senior intern position" is Intern: priority is positional. |
| Matcher.FragmentsClean | resume_skill_matcher/matcher/utils.py:152-156 | Every stripped fragment has no whitespace at its ends and no '.', '•' or newline. |
| Matcher.ExtractRequirements | resume_skill_matcher/matcher/utils.py:145-162 | Every requirement is stripped, at least 15 long, free of '.', '•' and newline, and holds a requirement phrase in lower case; the result keeps fragment order, includes every fragment meeting the test, and has one entry per such fragment, repeats included. |
| Matcher.AddressedExtends | resume_skill_matcher/matcher/utils.py:175-176 | A requirement addressed by a resume stays addressed by any text containing that resume. |
| Matcher.RequirementMatchScore | resume_skill_matcher/matcher/utils.py:167-179 | 0 with no requirement; otherwise 100 times the number of addressed requirements over the number of requirements, in [0, 100], 100 iff every requirement has a token in the lower-cased resume, 0 iff none has. |
| Matcher.RequirementScoreMonotone | resume_skill_matcher/matcher/utils.py:167-179 | Extending the resume with text on either side never lowers the requirement score. |
| Matcher.RoleFitScore | resume_skill_matcher/matcher/utils.py:184-187 | The fit is in {0, 40, 100}: 0 iff a role is "Unknown", 100 iff both are known and equal, 40 iff both known and different. |
| Matcher.RoleFitSymmetric | resume_skill_matcher/matcher/utils.py:184-187 | The fit does not depend on argument order. |
| Matcher.GenerateSkillRoadmap | resume_skill_matcher/matcher/utils.py:332-340 | One entry per distinct missing skill, each with three steps that all name the skill. |
| Scorecard.KeywordMatch | resume_skill_matcher/matcher/utils.py:197-200 | In [0, 100]; 60 with no job skill; otherwise 100 times the distinct shared skills over the job list's length; 0 iff no job skill is in the resume; 100 iff all distinct job skills are. |
| Scorecard.KeywordMatchVersusMatchScore | resume_skill_matcher/matcher/utils.py:197-200 | Equal to the match score when the job has skills; with none it is 60, never below the match score, and equal to it iff the resume has at least 12 skills. |
| Scorecard.KeywordMatchTwoOfThree | resume_skill_matcher/matcher/utils.py:198 | Two of three job skills covered gives 200/3. |
| Scorecard.SectionCoverage | resume_skill_matcher/matcher/utils.py:207-209 | 20 points per heading found in the raw text, so in {0, 20, 40, 60, 80, 100}; 100 iff all five headings occur in the raw text, 0 iff none does. |
| Scorecard.SectionCoverageCaseSensitive | resume_skill_matcher/matcher/utils.py:208 | The raw text is searched as written: "EXPERIENCE" covers no section. |
| Scorecard.SkillMentionsZeroIff | resume_skill_matcher/matcher/utils.py:212 | No mention iff every skill is non-empty and its lower-cased name is absent from the text. |
| Scorecard.SkillRelevance | resume_skill_matcher/matcher/utils.py:212-213 | 6 points per mention below 17 mentions, 100 from 17 on; 0 iff no skill is mentioned. |
| Scorecard.SkillRelevanceCaseSensitive | resume_skill_matcher/matcher/utils.py:212 | A skill written in capitals in the text is not counted. |
| Scorecard.WordTotalSkipsNothing | resume_skill_matcher/matcher/utils.py:217 | Skipping blank sentences does not change the word total. |
| Scorecard.ReadabilityBucket | resume_skill_matcher/matcher/utils.py:218 | 85 iff the average is at most 20 words, 70 iff above 20 and at most 30, else 50. |
| Scorecard.ReadabilityAntitone | resume_skill_matcher/matcher/utils.py:218 | More words over the same sentence count never read better. |
| Scorecard.ReadabilityBoundary | resume_skill_matcher/matcher/utils.py:218 | 20 words per sentence still reads as short, 21 does not; 30 is medium, 31 long. |
| Scorecard.Readability | resume_skill_matcher/matcher/utils.py:216-218 | In {85, 70, 50}; over all fragments, blank ones included, 85 iff the words average at most 20, 70 iff more than 20 and at most 30, 50 iff more than 30. |
| Scorecard.Overall | resume_skill_matcher/matcher/utils.py:220-226 | The weighted total lies in [0, 100] and between the smallest and the largest of the four parts. |
| Scorecard.OverallWeightsSumToOne | resume_skill_matcher/matcher/utils.py:220-226 | The four weights add up to one. |
| Scorecard.OverallMonotone | resume_skill_matcher/matcher/utils.py:220-226 | Raising any part never lowers the total. |
| Scorecard.AtsScorecard | resume_skill_matcher/matcher/utils.py:192-228 | The five scores as above, the overall one being the weighted total of the four parts returned; the only insight is the low-keyword one, present iff the keyword score is below 50, never when the job lists no skill. |
| Matcher.CommonSkills | resume_skill_matcher/matcher/views.py:56 | A skill is matched iff it is in both lists. |
| MatchView.MissingSkills | resume_skill_matcher/matcher/views.py:57 | A skill is missing iff it is in the job list and not the resume list. |
| MatchView.MatchedMissingPartition | resume_skill_matcher/matcher/views.py:56-57 | Matched and missing are disjoint and together are the distinct job skills; missing is empty iff every job skill is in the resume. |
| MatchView.ScoreBreakdown | resume_skill_matcher/matcher/views.py:61-65 | Matched is the number of distinct shared skills and missing the number of distinct job skills absent from the resume; together they are the number of distinct job skills, which equals the total iff the job list has no duplicate. |
| MatchView.ConfidenceLevel | resume_skill_matcher/matcher/views.py:68-73 | High iff score ≥ 75, Medium iff 50 ≤ score < 75, Low otherwise. |
| MatchView.ConfidenceMonotone | resume_skill_matcher/matcher/views.py:68-73 | A higher score never gives a lower tier. |
| MatchView.ResumeSectionScores | resume_skill_matcher/matcher/views.py:89-93 | Experience is the score; technical is the score plus 10 up to a score of 90 and 100 from there; ATS is the score plus 20 up to 80 and 100 from there. |
| MatchView.SectionScoresBounded | resume_skill_matcher/matcher/views.py:89-93 | From a match score, experience ≤ technical ≤ ATS ≤ 100. |
| MatchView.LevelsClashIff | resume_skill_matcher/matcher/views.py:104 | The level guard's "Unknown" test filters nothing: levels clash iff they differ. |
| MatchView.MismatchWarnings | resume_skill_matcher/matcher/views.py:96-120 | One to three warnings, no warning twice and only the four the page defines, ordered critical, moderate, caution; the critical role warning iff both roles known and different; the moderate level warning, with its message, iff levels differ; the requirement warning iff the requirement score is below 50; the success notice alone iff none of these. |
| MatchView.Concerns | resume_skill_matcher/matcher/views.py:96-114 | The role, level and requirement warnings that apply, each once, in severity order, and none exactly when roles agree, levels agree and the requirement score is at least 50. |
| MatchView.RoleClashFirst | resume_skill_matcher/matcher/views.py:98-102 | A role clash puts the critical warning first. |
| MatchView.AnalyseMatch | resume_skill_matcher/matcher/views.py:56-135 | The page holds the match score of the two skill lists, its tier and section scores, the matched/missing partition and breakdown, the roles and levels detected in each text, their role fit, the requirements of the job text and the resume's requirement score, the warnings those values raise, and the scorecard of the same inputs. |
| Reports.Compare | resume_skill_matcher/matcher/reports/comparison.py:1-8 | Matched = set(R) ∩ set(J), missing = set(J) − set(R), by membership; disjoint, union set(J), missing empty iff set(J) ⊆ set(R). |
| Reports.CompareOrderFree | resume_skill_matcher/matcher/reports/comparison.py:2-3 | Lists with the same elements give the same comparison. |
| Reports.CompareIgnoresRepetition | resume_skill_matcher/matcher/reports/comparison.py:2-3 | Repeating either list changes nothing. |
| Reports.Alignment | resume_skill_matcher/matcher/reports/insights.py:4-15 | Low iff score < 40, Moderate iff 40 ≤ score < 70, Strong otherwise. |
| Reports.AlignmentMonotone | resume_skill_matcher/matcher/reports/insights.py:4-15 | A higher score never falls into a lower band. |
| Reports.GenerateInsights | resume_skill_matcher/matcher/reports/insights.py:1-28 | The alignment sentence first; a second suggestion iff skills are missing, naming the first min(5, n) of them joined by ", "; the three fixed notes. |
| Reports.RecommendationContents | resume_skill_matcher/matcher/reports/insights.py:19 | The recommendation contains each of the first five missing skills, and its length is the prefix, those skills and one separator between neighbours. |
| Reports.RecommendationCapped | resume_skill_matcher/matcher/reports/insights.py:19 | Skills after the fifth never change the insights. |
| Reports.KeywordDensity | resume_skill_matcher/matcher/reports/ats.py:1-9 | Keys are exactly the distinct job skills; each value is the non-overlapping count of the lower-cased skill in the lower-cased resume, hence 0 iff a non-empty skill is absent, at most what fits, and one more than the resume length for an empty skill. |
| Reports.KeywordDensityIgnoresCase | resume_skill_matcher/matcher/reports/ats.py:2 | Upper-casing the resume changes no density. |
| Reports.AbsentSections | resume_skill_matcher/matcher/reports/ats.py:15-18 | The sections missing from the lower-cased resume, in the fixed order, and all of them. |
| Reports.SectionFeedback | resume_skill_matcher/matcher/reports/ats.py:12-21 | One message per absent section, in order; at most four; empty iff all four words occur. |
| Reports.SectionFeedbackIgnoresCase | resume_skill_matcher/matcher/reports/ats.py:18 | Upper-casing the resume changes no feedback. |
| SectionScoring.ScoreSections | resume_skill_matcher/matcher/ai/section_scoring.py:1-15 | Keys are exactly skills, experience, projects and education; each value is 90 iff one of its keywords is in the lower-cased text, else 40. |
| SectionScoring.ScoreSectionsIgnoresCase | resume_skill_matcher/matcher/ai/section_scoring.py:12 | Upper-casing the resume changes no score. |
| SectionScoring.WorkHistoryIsExperience | resume_skill_matcher/matcher/ai/section_scoring.py:4 | "work history" alone scores experience 90. |
| SectionScoring.TechnologiesIsSkills | resume_skill_matcher/matcher/ai/section_scoring.py:3 | "technologies" alone scores skills 90. |
| SkillText.NormalizeText | resume_skill_matcher/skills/utils.py:5-8 | Same length; only lower-case letters, digits and whitespace; letters, digits and whitespace kept (lower-cased), everything else a space. |
| SkillText.NormalizeIdempotent | resume_skill_matcher/skills/utils.py:5-8 | Normalising twice is normalising once. |
| SkillText.ExtractSkillsFromText | resume_skill_matcher/skills/utils.py:15-33 | Strictly sorted, so without duplicates; only canonical names of the table; a name is in the result iff some stripped candidate of that skill is in the normalised text or passes the similarity test. |
| SkillText.SubstringAlwaysFound | resume_skill_matcher/skills/utils.py:26-29 | A canonical name or alias contained in the normalised text is found whatever the similarity test says. |
| SkillText.ExtractSkillsTableOrderFree | resume_skill_matcher/skills/utils.py:19-33 | The order of the skill table does not matter. |
| SkillImport.ParseAliases | resume_skill_matcher/skills/management/commands/import_skills.py:29-33 | One alias per non-blank '\|'-separated piece; the aliases are exactly those pieces stripped and lower-cased; each is non-empty, stripped, lower-case and free of '\|'. |
| SkillImport.ParseJoinedAliases | resume_skill_matcher/skills/management/commands/import_skills.py:29-33 | Parsing clean aliases joined by '\|' gives them back. |
| SkillImport.RowCategory | resume_skill_matcher/skills/management/commands/import_skills.py:26 | "General" only when the category column is absent. |
| SkillImport.ParseRow | resume_skill_matcher/skills/management/commands/import_skills.py:24-33 | The key is the skill cell stripped and lower-cased; the aliases are the parsed alias cell, none when the column is absent; the category is the cell or "General". |
| SkillImport.ImportEntry | resume_skill_matcher/skills/management/commands/import_skills.py:35-51 | A new key creates the record from the row; an existing one keeps its category and source and gets the row's aliases only if it has none. |
| SkillImport.ImportRows | resume_skill_matcher/skills/management/commands/import_skills.py:23-51 | Created plus updated equals the number of rows; the keys are the old ones and the rows' keys; old categories and sources, and records with aliases, never change. |
| SkillImport.ImportSettles | resume_skill_matcher/skills/management/commands/import_skills.py:35-51 | After an import every row's record exists and has aliases unless that row gave none. |
| SkillImport.ReimportIsNoOp | resume_skill_matcher/skills/management/commands/import_skills.py:35-51 | Importing the same rows again creates nothing and changes nothing. |
| SkillApi.FirstAliasOwner | resume_skill_matcher/skills/api/views.py:56-58 | The first skill whose alias list holds the text exactly, or none. |
| SkillApi.Normalize | resume_skill_matcher/skills/api/views.py:41-64 | Empty lower-cased, stripped input is the "text field required" error; an exact canonical name wins; otherwise the first skill listing the text as an alias; otherwise no skill; any answer is a canonical name of the table. |
| SkillApi.AliasPicksLeastName | resume_skill_matcher/skills/api/views.py:55-58 | With the table in canonical-name order, an alias resolves to the least name among the skills listing it. |
| SkillApi.NormalizeIgnoresCase | resume_skill_matcher/skills/api/views.py:42 | Upper-case input resolves like its lower-case form. |

## Left out

- File and text extraction (PDF, DOCX, plain files, the unsupported-extension error) in `matcher/utils.py` lines 61-86: I/O over binary formats.
- The language-model calls (recruiter feedback with retry and backoff, `call_gemini`, bullet rewriting, interview questions, keyword suggestions) and `matcher/ai/gpt_rewrite.py`: network services with opaque output.
- `skill_gap_score`, `matcher/ai.py` and `matcher/ai/semantic.py`: TF-IDF and embedding similarity are floating-point library calls.
- `fuzzy_match` (`difflib.SequenceMatcher` ratio against the 0.85 threshold): a parameter `similar: (string, string) -> bool` of `SkillText.ExtractSkillsFromText`.
- `MASTER_SKILLS`: `skills/master_skills.py` is not part of this model; the taxonomy is a parameter.
- Python `round(x, 2)` and IEEE floats: every percentage and the weighted total are exact reals, unrounded.
- Unicode: case mapping, `\s`, `\w` and `\b` are modelled on ASCII only.
- Matcher.ExtractSkills and Reports.Compare: Python returns `list(set(...))`, whose order is unspecified; the model returns the set.
- SkillText.ExtractSkillsFromText: aliases are a list, as the stored record holds them; the `.split("|")` that `skills/utils.py` line 24 applies to that list would raise, and that failure is not modelled.
- SkillImport.ImportRows: a CSV row lacking the `skill` cell (a `KeyError`) or carrying `None` for a short row is not modelled; an absent column is `None` in the row.
- The Django ORM, sessions, the `MatchAnalytics` write, rendering, `download_report` and `result` in `matcher/views.py`; `MatchView.AnalyseMatch` starts from the two texts and the two skill lists.
- `SkillSearchAPIView`: its `icontains` over a JSON field depends on the database.
- PDF and DOCX report rendering, the chatbot, `context_builder.py`, Django models, admin and URL wiring.
- The `created_at` timestamp of the skill record: a clock value.
