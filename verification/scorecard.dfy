/** The ATS scorecard: keyword match, section coverage, skill relevance, readability
    and their weighted overall score. */
module Scorecard {
  import opened Strings
  import opened Collections
  import opened Matcher

  // ---------------------------------------------------------------------------
  // Keyword match
  // ---------------------------------------------------------------------------

  /** The keyword score stands at 60 when the job lists no skill. */
  const NoJobSkillsKeywordScore: real := 60.0

  /** The keyword part of the scorecard: the share of job skills the resume covers,
      or 60 when the job lists none. */
  function KeywordMatch(resumeSkills: seq<string>, jdSkills: seq<string>): (k: real)
    ensures 0.0 <= k <= 100.0
    ensures |jdSkills| == 0 ==> k == NoJobSkillsKeywordScore
    ensures |jdSkills| > 0 ==> k * |jdSkills| as real == 100.0 * |CommonSkills(resumeSkills, jdSkills)| as real
    ensures |jdSkills| > 0 && Distinct(jdSkills) ==> (k == 100.0 <==> ToSet(jdSkills) <= ToSet(resumeSkills))
    ensures |jdSkills| > 0 ==> (k == 0.0 <==> CommonSkills(resumeSkills, jdSkills) == {})
  {
    if |jdSkills| == 0 then NoJobSkillsKeywordScore
    else
      assert |CommonSkills(resumeSkills, jdSkills)| == 0 <==> CommonSkills(resumeSkills, jdSkills) == {};
      OverlapPercent(resumeSkills, jdSkills)
  }

  /** The scorecard agrees with the match score whenever the job lists skills; with
      no job skill it gives 60 where the match score gives 5 per resume skill capped
      at 60, so the two meet exactly when the resume has at least 12 skills. */
  lemma KeywordMatchVersusMatchScore(resumeSkills: seq<string>, jdSkills: seq<string>)
    ensures |jdSkills| > 0 ==> KeywordMatch(resumeSkills, jdSkills) == CalculateMatchScore(resumeSkills, jdSkills)
    ensures CalculateMatchScore(resumeSkills, [])  <= KeywordMatch(resumeSkills, [])
    ensures CalculateMatchScore(resumeSkills, []) == KeywordMatch(resumeSkills, []) <==> |resumeSkills| >= 12
  {
  }

  /** Two of three distinct job skills covered: a keyword score of 200/3. */
  lemma KeywordMatchTwoOfThree()
    ensures KeywordMatch(["python", "sql"], ["python", "sql", "docker"]) == 200.0 / 3.0
  {
    var r: seq<string> := ["python", "sql"];
    var j: seq<string> := ["python", "sql", "docker"];
    assert "python" != "docker" && "sql" != "docker";
    assert ToSet(r) == {"python", "sql"};
    assert ToSet(j) == {"python", "sql", "docker"};
    assert CommonSkills(r, j) == {"python", "sql"};
  }

  // ---------------------------------------------------------------------------
  // Section coverage
  // ---------------------------------------------------------------------------

  /** The section headings looked for, exactly as written (case-sensitive). */
  const ScorecardSections: seq<string> := ["experience", "education", "skills", "projects", "summary"]

  /** The share of the five headings that appear in the raw resume text. */
  function SectionCoverage(resumeText: string): (sc: real)
    ensures sc == 20.0 * KeywordHits(ScorecardSections, resumeText) as real
    ensures 0.0 <= sc <= 100.0
    ensures sc == 100.0 <==> forall k :: 0 <= k < |ScorecardSections| ==> Occurs(ScorecardSections[k], resumeText)
    ensures sc == 0.0 <==> !OccursAny(ScorecardSections, resumeText)
    ensures sc in {0.0, 20.0, 40.0, 60.0, 80.0, 100.0}
  {
    var hits := KeywordHits(ScorecardSections, resumeText);
    KeywordHitsAllIff(ScorecardSections, resumeText);
    KeywordHitsZeroIff(ScorecardSections, resumeText);
    assert hits in {0, 1, 2, 3, 4, 5};
    Percent(hits, |ScorecardSections|)
  }

  /** Headings are matched without case folding: an upper-case heading scores 0. */
  lemma SectionCoverageCaseSensitive()
    ensures SectionCoverage("EXPERIENCE") == 0.0
  {
    var t := "EXPERIENCE";
    forall k | 0 <= k < |ScorecardSections| ensures !Occurs(ScorecardSections[k], t) {
      assert CannotOccur(ScorecardSections[k], t);
      CannotOccurSound(ScorecardSections[k], t);
    }
  }

  // ---------------------------------------------------------------------------
  // Skill relevance
  // ---------------------------------------------------------------------------

  /** `sum(resume_text.count(skill.lower()) for skill in resume_skills)`: the text is
      searched as written, the skill lower-cased. */
  function SkillMentions(resumeSkills: seq<string>, resumeText: string): nat {
    if |resumeSkills| == 0 then 0
    else Count(Lower(resumeSkills[0]), resumeText) + SkillMentions(resumeSkills[1..], resumeText)
  }

  /** No mention at all exactly when every skill is non-empty and its lower-cased
      name is nowhere in the text (an empty skill is counted |text| + 1 times). */
  lemma {:induction false} SkillMentionsZeroIff(resumeSkills: seq<string>, resumeText: string)
    ensures SkillMentions(resumeSkills, resumeText) == 0 <==>
      forall k :: 0 <= k < |resumeSkills| ==> |resumeSkills[k]| > 0 && !Occurs(Lower(resumeSkills[k]), resumeText)
    decreases |resumeSkills|
  {
    if |resumeSkills| > 0 {
      var rest := resumeSkills[1..];
      SkillMentionsZeroIff(rest, resumeText);
      var s := resumeSkills[0];
      if |s| > 0 {
        CountPositiveIff(Lower(s), resumeText);
      }
      if forall k :: 0 <= k < |resumeSkills| ==> |resumeSkills[k]| > 0 && !Occurs(Lower(resumeSkills[k]), resumeText) {
        forall k | 0 <= k < |rest| ensures |rest[k]| > 0 && !Occurs(Lower(rest[k]), resumeText) {
          assert rest[k] == resumeSkills[k + 1];
        }
      }
      if SkillMentions(resumeSkills, resumeText) == 0 {
        forall k | 0 <= k < |resumeSkills| ensures |resumeSkills[k]| > 0 && !Occurs(Lower(resumeSkills[k]), resumeText) {
          if k > 0 {
            assert resumeSkills[k] == rest[k - 1];
          }
        }
      }
    }
  }

  /** Each mention is worth 6 points. */
  const PointsPerMention: nat := 6

  /** `min(100, skill_mentions * 6)` */
  function SkillRelevance(resumeSkills: seq<string>, resumeText: string): (sr: nat)
    ensures sr <= 100
    ensures sr == 100 <==> SkillMentions(resumeSkills, resumeText) >= 17
    ensures sr == 0 <==> forall k :: 0 <= k < |resumeSkills| ==> |resumeSkills[k]| > 0 && !Occurs(Lower(resumeSkills[k]), resumeText)
    ensures sr % PointsPerMention == 0 || sr == 100
    ensures SkillMentions(resumeSkills, resumeText) < 17 ==> sr == PointsPerMention * SkillMentions(resumeSkills, resumeText)
  {
    SkillMentionsZeroIff(resumeSkills, resumeText);
    Min(100, PointsPerMention * SkillMentions(resumeSkills, resumeText))
  }

  /** Mentions are counted in the text as written: a skill written in capitals in
      the text is not found. */
  lemma SkillRelevanceCaseSensitive()
    ensures SkillRelevance(["SQL"], "SQL") == 0
  {
    assert Lower("SQL") == "sql";
    assert CannotOccur("sql", "SQL");
    CannotOccurSound("sql", "SQL");
  }

  // ---------------------------------------------------------------------------
  // Readability
  // ---------------------------------------------------------------------------

  /** `re.split(r"[.!?]", text)` */
  const SentenceDelimiters: set<char> := {'.', '!', '?'}

  function Sentences(resumeText: string): seq<string> {
    SplitOn(resumeText, SentenceDelimiters)
  }

  /** `sum(len(s.split()) for s in sentences if s.strip())` */
  function WordTotal(sentences: seq<string>): nat {
    if |sentences| == 0 then 0
    else (if |Strip(sentences[0])| > 0 then |Words(sentences[0])| else 0) + WordTotal(sentences[1..])
  }

  /** Plain sum of the word counts of every sentence. */
  function AllWords(sentences: seq<string>): nat {
    if |sentences| == 0 then 0
    else |Words(sentences[0])| + AllWords(sentences[1..])
  }

  /** A whitespace-only string has no words. */
  lemma WordsOfSpace(s: string)
    requires AllSpace(s)
    ensures Words(s) == []
  {
  }

  /** Skipping blank sentences does not change the total: they have no words. */
  lemma {:induction false} WordTotalSkipsNothing(sentences: seq<string>)
    ensures WordTotal(sentences) == AllWords(sentences)
    decreases |sentences|
  {
    if |sentences| > 0 {
      WordTotalSkipsNothing(sentences[1..]);
      if |Strip(sentences[0])| == 0 {
        StripEmptyIff(sentences[0]);
        WordsOfSpace(sentences[0]);
      }
    }
  }

  /** Readability scores. */
  const ShortSentences: nat := 85
  const MediumSentences: nat := 70
  const LongSentences: nat := 50

  /** An average `words / count` is at most `bound` exactly when `words` is at most
      `bound` per item. */
  lemma AverageAtMost(words: nat, count: nat, bound: nat)
    requires count > 0
    ensures words as real / count as real <= bound as real <==> words <= bound * count
  {
    var q := words as real / count as real;
    var c := count as real;
    assert q * c == words as real;
    assert (bound * count) as real == bound as real * c;
    ScaleStrict(q, bound as real, c);
    ScaleStrict(bound as real, q, c);
  }

  /** The readability bucket of an average sentence length `words / count`. */
  function ReadabilityBucket(words: nat, count: nat): (rd: nat)
    requires count > 0
    ensures rd in {ShortSentences, MediumSentences, LongSentences}
    ensures rd == ShortSentences <==> words <= 20 * count
    ensures rd == MediumSentences <==> 20 * count < words <= 30 * count
    ensures rd == LongSentences <==> 30 * count < words
  {
    var avg := words as real / count as real;
    AverageAtMost(words, count, 20);
    AverageAtMost(words, count, 30);
    if avg <= 20.0 then ShortSentences else if avg <= 30.0 then MediumSentences else LongSentences
  }

  /** Longer sentences never read better. */
  lemma ReadabilityAntitone(words: nat, more: nat, count: nat)
    requires count > 0 && words <= more
    ensures ReadabilityBucket(more, count) <= ReadabilityBucket(words, count)
  {
  }

  /** An average of exactly 20 words per sentence still counts as short; 21 does not. */
  lemma ReadabilityBoundary()
    ensures ReadabilityBucket(20, 1) == ShortSentences
    ensures ReadabilityBucket(21, 1) == MediumSentences
    ensures ReadabilityBucket(30, 1) == MediumSentences
    ensures ReadabilityBucket(31, 1) == LongSentences
  {
  }

  /** The readability of the resume: the bucket of its average words per sentence,
      where the sentence count includes blank fragments (one more than there are
      sentence marks). */
  function Readability(resumeText: string): (rd: nat)
    ensures rd in {ShortSentences, MediumSentences, LongSentences}
    ensures rd == ShortSentences <==> AllWords(Sentences(resumeText)) <= 20 * (CountChars(resumeText, SentenceDelimiters) + 1)
    ensures rd == MediumSentences <==>
      20 * (CountChars(resumeText, SentenceDelimiters) + 1) < AllWords(Sentences(resumeText)) <= 30 * (CountChars(resumeText, SentenceDelimiters) + 1)
    ensures rd == LongSentences <==> AllWords(Sentences(resumeText)) > 30 * (CountChars(resumeText, SentenceDelimiters) + 1)
  {
    var sentences := Sentences(resumeText);
    SplitOnSpec(resumeText, SentenceDelimiters);
    WordTotalSkipsNothing(sentences);
    ReadabilityBucket(WordTotal(sentences), |sentences|)
  }

  // ---------------------------------------------------------------------------
  // Overall score and insights
  // ---------------------------------------------------------------------------

  /** The weighted sum 0.35 k + 0.2 sc + 0.25 sr + 0.2 rd. */
  function Overall(k: real, sc: real, sr: real, rd: real): (o: real)
    requires 0.0 <= k <= 100.0 && 0.0 <= sc <= 100.0 && 0.0 <= sr <= 100.0 && 0.0 <= rd <= 100.0
    ensures 0.0 <= o <= 100.0
    ensures MinReal(MinReal(k, sc), MinReal(sr, rd)) <= o <= MaxReal(MaxReal(k, sc), MaxReal(sr, rd))
  {
    k * 0.35 + sc * 0.2 + sr * 0.25 + rd * 0.2
  }

  /** The weights add up to one: four equal parts give that same value. */
  lemma OverallWeightsSumToOne(v: real)
    requires 0.0 <= v <= 100.0
    ensures Overall(v, v, v, v) == v
  {
  }

  /** Raising any one part never lowers the overall score. */
  lemma OverallMonotone(k: real, sc: real, sr: real, rd: real, k': real, sc': real, sr': real, rd': real)
    requires 0.0 <= k <= k' <= 100.0 && 0.0 <= sc <= sc' <= 100.0
    requires 0.0 <= sr <= sr' <= 100.0 && 0.0 <= rd <= rd' <= 100.0
    ensures Overall(k, sc, sr, rd) <= Overall(k', sc', sr', rd')
  {
  }

  const LowKeywordInsight: string := "Low keyword match. Important job keywords are missing."

  /** Keyword scores below this trigger the insight. */
  const LowKeywordThreshold: real := 50.0

  datatype Scores = Scores(keywordMatch: real, sectionCoverage: real, skillRelevance: nat, readability: nat, overall: real)

  /** `ats_scorecard(resume_text, jd_text, resume_skills, jd_skills)`: the five
      scores, and the low-keyword insight exactly when the keyword score is below 50. */
  function AtsScorecard(resumeText: string, jdText: string, resumeSkills: seq<string>, jdSkills: seq<string>): (r: (Scores, seq<string>))
    ensures r.0.keywordMatch == KeywordMatch(resumeSkills, jdSkills)
    ensures r.0.sectionCoverage == SectionCoverage(resumeText)
    ensures r.0.skillRelevance == SkillRelevance(resumeSkills, resumeText)
    ensures r.0.readability == Readability(resumeText)
    ensures 0.0 <= r.0.overall <= 100.0
    ensures r.0.overall == Overall(r.0.keywordMatch, r.0.sectionCoverage, r.0.skillRelevance as real, r.0.readability as real)
    ensures r.1 == (if r.0.keywordMatch < LowKeywordThreshold then [LowKeywordInsight] else [])
    ensures |jdSkills| == 0 ==> r.1 == []
  {
    var k := KeywordMatch(resumeSkills, jdSkills);
    var sc := SectionCoverage(resumeText);
    var sr := SkillRelevance(resumeSkills, resumeText);
    var rd := Readability(resumeText);
    var insights := if k < LowKeywordThreshold then [LowKeywordInsight] else [];
    (Scores(k, sc, sr, rd, Overall(k, sc, sr as real, rd as real)), insights)
  }
}
