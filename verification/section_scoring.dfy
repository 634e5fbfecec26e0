/** Keyword-based section scores: 90 for a section the resume mentions, else 40. */
module SectionScoring {
  import opened Strings

  const FoundScore: nat := 90
  const MissingScore: nat := 40

  const SkillsKeywords: seq<string> := ["skills", "technologies"]
  const ExperienceKeywords: seq<string> := ["experience", "work history"]
  const ProjectsKeywords: seq<string> := ["projects"]
  const EducationKeywords: seq<string> := ["education"]

  /** The keywords that reveal a section, for the four sections scored. */
  function KeywordsOf(section: string): seq<string> {
    if section == "skills" then SkillsKeywords
    else if section == "experience" then ExperienceKeywords
    else if section == "projects" then ProjectsKeywords
    else if section == "education" then EducationKeywords
    else []
  }

  const ScoredSections: set<string> := {"skills", "experience", "projects", "education"}

  /** The score of one section: 90 when one of its keywords is in the lower-cased text. */
  function SectionValue(keywords: seq<string>, resumeText: string): (v: nat)
    ensures v in {FoundScore, MissingScore}
    ensures v == FoundScore <==> OccursAny(keywords, Lower(resumeText))
  {
    if OccursAny(keywords, Lower(resumeText)) then FoundScore else MissingScore
  }

  /** `score_resume_sections(resume_text)` */
  function ScoreSections(resumeText: string): (scores: map<string, nat>)
    ensures scores.Keys == ScoredSections
    ensures forall s :: s in scores ==> scores[s] in {FoundScore, MissingScore}
    ensures forall s :: s in scores ==> (scores[s] == FoundScore <==> OccursAny(KeywordsOf(s), Lower(resumeText)))
  {
    map["skills" := SectionValue(SkillsKeywords, resumeText),
        "experience" := SectionValue(ExperienceKeywords, resumeText),
        "projects" := SectionValue(ProjectsKeywords, resumeText),
        "education" := SectionValue(EducationKeywords, resumeText)]
  }

  /** Scoring ignores case: upper-casing the resume changes no score. */
  lemma ScoreSectionsIgnoresCase(resumeText: string)
    ensures ScoreSections(Upper(resumeText)) == ScoreSections(resumeText)
  {
    LowerUpper(resumeText);
  }

  /** "work history" alone counts as experience. */
  lemma WorkHistoryIsExperience()
    ensures ScoreSections("work history")["experience"] == FoundScore
  {
    var t := "work history";
    LowerOfLowerText(t);
    OccursSelf(t);
    assert ExperienceKeywords[1] == t;
  }

  /** "technologies" alone counts as skills. */
  lemma TechnologiesIsSkills()
    ensures ScoreSections("technologies")["skills"] == FoundScore
  {
    var t := "technologies";
    LowerOfLowerText(t);
    OccursSelf(t);
    assert SkillsKeywords[1] == t;
  }
}
