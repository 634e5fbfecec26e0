/** The report helpers: the skill comparison, the written insights, keyword density
    and section feedback. */
module Reports {
  import opened Strings
  import opened Collections
  import opened Matcher
  import opened MatchView

  // ---------------------------------------------------------------------------
  // Comparison
  // ---------------------------------------------------------------------------

  datatype Comparison = Comparison(matched: set<string>, missing: set<string>)

  /** `compare_resume_vs_jd(resume_skills, jd_skills)`. Python returns the two sets
      as lists in hash order; the model keeps them as sets. */
  function Compare(resumeSkills: seq<string>, jdSkills: seq<string>): (c: Comparison)
    ensures forall s :: s in c.matched <==> s in resumeSkills && s in jdSkills
    ensures forall s :: s in c.missing <==> s in jdSkills && s !in resumeSkills
    ensures c.matched !! c.missing
    ensures c.matched + c.missing == ToSet(jdSkills)
    ensures c.missing == {} <==> ToSet(jdSkills) <= ToSet(resumeSkills)
  {
    MatchedMissingPartition(resumeSkills, jdSkills);
    Comparison(CommonSkills(resumeSkills, jdSkills), MissingSkills(resumeSkills, jdSkills))
  }

  /** Only which skills the lists hold matters, not their order or repetitions. */
  lemma CompareOrderFree(r: seq<string>, j: seq<string>, r': seq<string>, j': seq<string>)
    requires ToSet(r) == ToSet(r') && ToSet(j) == ToSet(j')
    ensures Compare(r, j) == Compare(r', j')
  {
  }

  /** Listing either list twice over changes nothing. */
  lemma CompareIgnoresRepetition(r: seq<string>, j: seq<string>)
    ensures Compare(r, j + j) == Compare(r, j)
    ensures Compare(r + r, j) == Compare(r, j)
  {
    assert ToSet(j + j) == ToSet(j);
    assert ToSet(r + r) == ToSet(r);
  }

  // ---------------------------------------------------------------------------
  // Insights
  // ---------------------------------------------------------------------------

  /** How well the resume lines up with the job, by score band. */
  datatype AlignmentBand = LowBand | ModerateBand | StrongBand {
    function Sentence(): string {
      match this
      case LowBand => "Low ATS alignment. Add missing keywords and tailor resume for this role."
      case ModerateBand => "Moderate ATS alignment. Improve project descriptions using job keywords."
      case StrongBand => "Strong ATS alignment. Minor refinements can further boost ranking."
    }
  }

  const RecommendPrefix: string := "Recommended skills to add: "
  const SkillSeparator: string := ", "

  /** At most this many missing skills are recommended. */
  const MaxRecommended: nat := 5

  const AtsNotes: seq<string> := [
    "ATS systems prioritize keyword relevance over formatting.",
    "Your score reflects overlap between resume and job description skills.",
    "Missing keywords reduce ATS visibility even if you have experience."
  ]

  /** The alignment band of a score: below 40, below 70, or above. */
  function Alignment(score: real): (b: AlignmentBand)
    ensures b == LowBand <==> score < 40.0
    ensures b == ModerateBand <==> 40.0 <= score < 70.0
    ensures b == StrongBand <==> score >= 70.0
  {
    if score < 40.0 then LowBand
    else if score < 70.0 then ModerateBand
    else StrongBand
  }

  /** A higher score never falls into a lower band. */
  lemma AlignmentMonotone(a: real, b: real)
    requires a <= b
    ensures Alignment(a) == StrongBand ==> Alignment(b) == StrongBand
    ensures Alignment(b) == LowBand ==> Alignment(a) == LowBand
  {
  }

  /** The first `MaxRecommended` missing skills, in order. */
  function Recommended(missing: seq<string>): (r: seq<string>)
    ensures |r| == Min(MaxRecommended, |missing|)
    ensures r == missing[..|r|]
  {
    missing[..Min(MaxRecommended, |missing|)]
  }

  /** `generate_resume_insights(score, missing_skills)`: the alignment sentence, then
      a recommendation naming the first five missing skills when any are missing,
      with the three fixed notes. */
  function GenerateInsights(score: real, missing: seq<string>): (r: (seq<string>, seq<string>))
    ensures 1 <= |r.0| <= 2
    ensures r.0[0] == Alignment(score).Sentence()
    ensures |r.0| == 2 <==> |missing| > 0
    ensures |r.0| == 2 ==> r.0[1] == RecommendPrefix + Join(Recommended(missing), SkillSeparator)
    ensures r.1 == AtsNotes
  {
    var suggestions := [Alignment(score).Sentence()]
      + (if |missing| > 0 then [RecommendPrefix + Join(Recommended(missing), SkillSeparator)] else []);
    (suggestions, AtsNotes)
  }

  /** The recommendation names each of the first five missing skills, and its length
      is the prefix, those skills and one separator between neighbours. */
  lemma RecommendationContents(score: real, missing: seq<string>)
    requires |missing| > 0
    ensures var msg := GenerateInsights(score, missing).0[1];
      && (forall k :: 0 <= k < Min(MaxRecommended, |missing|) ==> Occurs(missing[k], msg))
      && |msg| == |RecommendPrefix| + |Concat(Recommended(missing))| + |SkillSeparator| * (Min(MaxRecommended, |missing|) - 1)
  {
    var rec := Recommended(missing);
    var msg := GenerateInsights(score, missing).0[1];
    assert msg == RecommendPrefix + Join(rec, SkillSeparator) + "";
    JoinLength(rec, SkillSeparator);
    forall k | 0 <= k < |rec| ensures Occurs(missing[k], msg) {
      JoinContains(rec, SkillSeparator, k);
      OccursInConcat(rec[k], RecommendPrefix, Join(rec, SkillSeparator), "");
    }
  }

  /** A sixth missing skill and beyond never changes the recommendation. */
  lemma RecommendationCapped(score: real, missing: seq<string>, more: seq<string>)
    requires |missing| >= MaxRecommended
    ensures GenerateInsights(score, missing + more) == GenerateInsights(score, missing)
  {
    assert (missing + more)[..MaxRecommended] == missing[..MaxRecommended];
  }

  // ---------------------------------------------------------------------------
  // Keyword density
  // ---------------------------------------------------------------------------

  /** `keyword_density(resume_text, jd_skills)`: for each distinct job skill, how
      often its lower-cased name occurs, without overlap, in the lower-cased resume. */
  function KeywordDensity(resumeText: string, jdSkills: seq<string>): (d: map<string, nat>)
    ensures d.Keys == ToSet(jdSkills)
    ensures forall s :: s in d ==> d[s] == Count(Lower(s), Lower(resumeText))
    ensures forall s :: s in d && |s| > 0 ==> (d[s] == 0 <==> !Occurs(Lower(s), Lower(resumeText)))
    ensures forall s :: s in d && |s| > 0 ==> d[s] * |s| <= |resumeText|
    ensures forall s :: s in d && |s| == 0 ==> d[s] == |resumeText| + 1
  {
    var d := map s | s in ToSet(jdSkills) :: Count(Lower(s), Lower(resumeText));
    forall s | s in d && |s| > 0
      ensures (d[s] == 0 <==> !Occurs(Lower(s), Lower(resumeText))) && d[s] * |s| <= |resumeText|
    {
      CountPositiveIff(Lower(s), Lower(resumeText));
      CountFits(Lower(s), Lower(resumeText));
    }
    d
  }

  /** Density ignores case in the resume. */
  lemma KeywordDensityIgnoresCase(resumeText: string, jdSkills: seq<string>)
    ensures KeywordDensity(Upper(resumeText), jdSkills) == KeywordDensity(resumeText, jdSkills)
  {
    LowerUpper(resumeText);
  }

  // ---------------------------------------------------------------------------
  // Section feedback
  // ---------------------------------------------------------------------------

  const FeedbackSections: seq<string> := ["experience", "projects", "skills", "education"]

  /** `str.title()` of a single lower-case word: its first letter in upper case. */
  function TitleWord(w: string): (t: string)
    ensures |t| == |w|
    ensures |w| > 0 ==> t[0] == UpperChar(w[0]) && t[1..] == w[1..]
  {
    if |w| == 0 then "" else [UpperChar(w[0])] + w[1..]
  }

  function FeedbackMessage(section: string): string {
    "Consider adding a clear '" + TitleWord(section) + "' section."
  }

  /** The sections, in their fixed order, that the lower-cased resume lacks. */
  function AbsentSections(resumeText: string): (a: seq<string>)
    ensures IsSubsequence(a, FeedbackSections)
    ensures forall k :: 0 <= k < |a| ==> !Occurs(a[k], Lower(resumeText))
    ensures forall s :: s in FeedbackSections && !Occurs(s, Lower(resumeText)) ==> s in a
  {
    Filter(FeedbackSections, (s: string) => !Occurs(s, Lower(resumeText)))
  }

  /** `section_feedback(resume_text)`: one message per absent section, in order. */
  function SectionFeedback(resumeText: string): (fb: seq<string>)
    ensures |fb| <= |FeedbackSections|
    ensures |fb| == |AbsentSections(resumeText)|
    ensures forall k :: 0 <= k < |fb| ==> fb[k] == FeedbackMessage(AbsentSections(resumeText)[k])
    ensures |fb| == 0 <==> forall k :: 0 <= k < |FeedbackSections| ==> Occurs(FeedbackSections[k], Lower(resumeText))
  {
    var absent := AbsentSections(resumeText);
    SubsequenceMembers(absent, FeedbackSections);
    assert |absent| > 0 ==> absent[0] in absent;
    Map(absent, FeedbackMessage)
  }

  /** Feedback ignores case in the resume. */
  lemma SectionFeedbackIgnoresCase(resumeText: string)
    ensures SectionFeedback(Upper(resumeText)) == SectionFeedback(resumeText)
  {
    LowerUpper(resumeText);
  }
}
