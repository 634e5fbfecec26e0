/** The pure decisions of the match page: matched and missing skills, the score
    breakdown, the confidence tier, the section scores and the mismatch warnings. */
module MatchView {
  import opened Strings
  import opened Collections
  import opened Matcher
  import opened Scorecard

  // ---------------------------------------------------------------------------
  // Matched and missing skills
  // ---------------------------------------------------------------------------

  /** `set(jd_skills) - set(resume_skills)` */
  function MissingSkills(resumeSkills: seq<string>, jdSkills: seq<string>): (m: set<string>)
    ensures forall s :: s in m <==> s in jdSkills && s !in resumeSkills
  {
    ToSet(jdSkills) - ToSet(resumeSkills)
  }

  /** Matched and missing split the distinct job skills: no skill is in both, and
      together they are every job skill. */
  lemma MatchedMissingPartition(resumeSkills: seq<string>, jdSkills: seq<string>)
    ensures CommonSkills(resumeSkills, jdSkills) !! MissingSkills(resumeSkills, jdSkills)
    ensures CommonSkills(resumeSkills, jdSkills) + MissingSkills(resumeSkills, jdSkills) == ToSet(jdSkills)
    ensures MissingSkills(resumeSkills, jdSkills) == {} <==> ToSet(jdSkills) <= ToSet(resumeSkills)
  {
    var m := CommonSkills(resumeSkills, jdSkills);
    var x := MissingSkills(resumeSkills, jdSkills);
    if x == {} {
      forall s | s in ToSet(jdSkills) ensures s in ToSet(resumeSkills) {
        assert s !in x;
      }
    }
  }

  datatype Breakdown = Breakdown(totalJdSkills: nat, matchedSkills: nat, missingSkills: nat)

  /** The score breakdown: how many job skills, how many of them matched, how many
      are missing. Matched and missing add up to the distinct job skills, which is
      the job skill count exactly when the job lists no skill twice. */
  function ScoreBreakdown(resumeSkills: seq<string>, jdSkills: seq<string>): (b: Breakdown)
    ensures b.totalJdSkills == |jdSkills|
    ensures b.matchedSkills == |CommonSkills(resumeSkills, jdSkills)|
    ensures b.missingSkills == |MissingSkills(resumeSkills, jdSkills)|
    ensures b.matchedSkills + b.missingSkills == |ToSet(jdSkills)|
    ensures b.matchedSkills + b.missingSkills <= b.totalJdSkills
    ensures b.matchedSkills + b.missingSkills == b.totalJdSkills <==> Distinct(jdSkills)
    ensures b.missingSkills == 0 <==> ToSet(jdSkills) <= ToSet(resumeSkills)
  {
    var m := CommonSkills(resumeSkills, jdSkills);
    var x := MissingSkills(resumeSkills, jdSkills);
    MatchedMissingPartition(resumeSkills, jdSkills);
    assert |m + x| == |m| + |x|;
    ToSetCard(jdSkills);
    Breakdown(|jdSkills|, |m|, |x|)
  }

  // ---------------------------------------------------------------------------
  // Confidence tier and section scores
  // ---------------------------------------------------------------------------

  datatype Confidence = High | Medium | Low

  /** The confidence tier of a match score. */
  function ConfidenceLevel(score: real): (c: Confidence)
    ensures c == High <==> score >= 75.0
    ensures c == Medium <==> 50.0 <= score < 75.0
    ensures c == Low <==> score < 50.0
  {
    if score >= 75.0 then High
    else if score >= 50.0 then Medium
    else Low
  }

  /** The rank of a tier, Low lowest. */
  function Rank(c: Confidence): nat {
    match c
    case Low => 0
    case Medium => 1
    case High => 2
  }

  /** A higher score never gives a lower tier. */
  lemma ConfidenceMonotone(a: real, b: real)
    requires a <= b
    ensures Rank(ConfidenceLevel(a)) <= Rank(ConfidenceLevel(b))
  {
  }

  datatype SectionScores = SectionScores(technical: real, experience: real, ats: real)

  /** technical = min(100, s + 10), experience = s, ats = min(100, s + 20). */
  function ResumeSectionScores(score: real): (r: SectionScores)
    ensures r.experience == score
    ensures r.technical <= score + 10.0 && r.technical <= 100.0
    ensures r.technical <= r.ats <= r.technical + 10.0 && r.ats <= 100.0
    ensures score <= 90.0 ==> r.technical == score + 10.0
    ensures score <= 80.0 ==> r.ats == score + 20.0
    ensures r.technical == 100.0 <==> score >= 90.0
    ensures r.ats == 100.0 <==> score >= 80.0
    ensures score <= 100.0 ==> r.experience <= 100.0 && score <= r.technical && score <= r.ats
  {
    SectionScores(MinReal(100.0, score + 10.0), score, MinReal(100.0, score + 20.0))
  }

  /** Scores from the match score stay within [0, 100]. */
  lemma SectionScoresBounded(resumeSkills: seq<string>, jdSkills: seq<string>)
    ensures var r := ResumeSectionScores(CalculateMatchScore(resumeSkills, jdSkills));
      0.0 <= r.experience <= r.technical <= r.ats <= 100.0
  {
  }

  // ---------------------------------------------------------------------------
  // Mismatch warnings
  // ---------------------------------------------------------------------------

  datatype WarningLevel = Critical | Moderate | Caution | Success

  datatype Warning = Warning(level: WarningLevel, message: string)

  /** The position of a warning level in the list the page shows. */
  function LevelOrder(level: WarningLevel): nat {
    match level
    case Critical => 0
    case Moderate => 1
    case Caution => 2
    case Success => 3
  }

  function RoleWarning(jdRole: string, resumeRole: string): Warning {
    Warning(Critical, "Resume role does not match the job role (" + resumeRole + " vs " + jdRole + ").")
  }

  function LevelWarning(jdLevel: Seniority, resumeLevel: Seniority): Warning {
    Warning(Moderate, "Expected " + jdLevel.Label() + " level but resume appears " + resumeLevel.Label() + ".")
  }

  const RequirementWarning: Warning :=
    Warning(Caution, "Less than 50% of job requirements are addressed in the resume.")

  const AlignedNotice: Warning :=
    Warning(Success, "Resume aligns well with role, seniority, and requirements.")

  predicate RolesClash(jdRole: string, resumeRole: string) {
    jdRole != UnknownRole && resumeRole != UnknownRole && jdRole != resumeRole
  }

  /** The level test as the page writes it: both labels differ from "Unknown" and
      from each other. */
  predicate LevelsClash(jdLevel: Seniority, resumeLevel: Seniority) {
    jdLevel.Label() != UnknownRole && resumeLevel.Label() != UnknownRole && jdLevel.Label() != resumeLevel.Label()
  }

  /** Distinct levels have distinct labels. */
  lemma LabelInjective(a: Seniority, b: Seniority)
    ensures a.Label() == b.Label() <==> a == b
  {
    if a != b {
      assert a.Label()[0] != b.Label()[0] || |a.Label()| != |b.Label()|;
    }
  }

  /** The "Unknown" guard on levels filters nothing: a seniority label is never
      "Unknown", so the levels clash exactly when they differ. */
  lemma LevelsClashIff(jdLevel: Seniority, resumeLevel: Seniority)
    ensures LevelsClash(jdLevel, resumeLevel) <==> jdLevel != resumeLevel
  {
    LabelInjective(jdLevel, resumeLevel);
  }

  /** The warnings shown next to the scores, in order: role clash, level clash, low
      requirement coverage, or the single success notice when none applies. */
  function MismatchWarnings(jdRole: string, resumeRole: string, jdLevel: Seniority, resumeLevel: Seniority,
                            reqScore: real): (ws: seq<Warning>)
    ensures 1 <= |ws| <= 3
    ensures RoleWarning(jdRole, resumeRole) in ws <==> RolesClash(jdRole, resumeRole)
    ensures (exists w :: w in ws && w.level == Moderate) <==> jdLevel != resumeLevel
    ensures LevelWarning(jdLevel, resumeLevel) in ws <==> jdLevel != resumeLevel
    ensures forall w :: w in ws ==>
      w in {RoleWarning(jdRole, resumeRole), LevelWarning(jdLevel, resumeLevel), RequirementWarning, AlignedNotice}
    ensures Distinct(ws)
    ensures LevelsAscend(ws)
    ensures RequirementWarning in ws <==> reqScore < 50.0
    ensures ws == [AlignedNotice] <==> !RolesClash(jdRole, resumeRole) && jdLevel == resumeLevel && reqScore >= 50.0
    ensures (exists w :: w in ws && w.level == Success) ==> ws == [AlignedNotice]
  {
    var found := Concerns(jdRole, resumeRole, jdLevel, resumeLevel, reqScore);
    if |found| == 0 then [AlignedNotice] else found
  }

  /** The role, level and requirement warnings that apply, before the success
      notice is considered. */
  function Concerns(jdRole: string, resumeRole: string, jdLevel: Seniority, resumeLevel: Seniority,
                    reqScore: real): (found: seq<Warning>)
    ensures |found| <= 3
    ensures RoleWarning(jdRole, resumeRole) in found <==> RolesClash(jdRole, resumeRole)
    ensures (exists w :: w in found && w.level == Moderate) <==> jdLevel != resumeLevel
    ensures LevelWarning(jdLevel, resumeLevel) in found <==> jdLevel != resumeLevel
    ensures RequirementWarning in found <==> reqScore < 50.0
    ensures forall w :: w in found ==> w in {RoleWarning(jdRole, resumeRole), LevelWarning(jdLevel, resumeLevel), RequirementWarning}
    ensures Distinct(found)
    ensures LevelsAscend(found)
    ensures |found| == 0 <==> !RolesClash(jdRole, resumeRole) && jdLevel == resumeLevel && reqScore >= 50.0
  {
    LevelsClashIff(jdLevel, resumeLevel);
    var role := RoleWarning(jdRole, resumeRole);
    var level := LevelWarning(jdLevel, resumeLevel);
    var critical := if RolesClash(jdRole, resumeRole) then [role] else [];
    var moderate := if LevelsClash(jdLevel, resumeLevel) then [level] else [];
    var caution := if reqScore < 50.0 then [RequirementWarning] else [];
    SegmentFacts(critical, moderate, caution, role, level, RequirementWarning);
    critical + moderate + caution
  }

  /** The list made of an optional critical, an optional moderate and an optional
      caution warning holds exactly the chosen ones, each once, in level order. */
  lemma SegmentFacts(critical: seq<Warning>, moderate: seq<Warning>, caution: seq<Warning>,
                     role: Warning, level: Warning, req: Warning)
    requires role.level == Critical && level.level == Moderate && req.level == Caution
    requires critical == [] || critical == [role]
    requires moderate == [] || moderate == [level]
    requires caution == [] || caution == [req]
    ensures role in critical + moderate + caution <==> critical == [role]
    ensures level in critical + moderate + caution <==> moderate == [level]
    ensures req in critical + moderate + caution <==> caution == [req]
    ensures (exists w :: w in critical + moderate + caution && w.level == Moderate) <==> moderate == [level]
    ensures forall w :: w in critical + moderate + caution ==> w == role || w == level || w == req
    ensures |critical + moderate + caution| <= 3
    ensures LevelsAscend(critical + moderate + caution)
    ensures Distinct(critical + moderate + caution)
  {
    FoundAscends(critical, moderate, caution);
    if moderate == [level] {
      assert level in critical + moderate + caution;
    }
  }

  /** Each warning sits strictly after every warning of a more severe level. */
  predicate LevelsAscend(ws: seq<Warning>) {
    forall i, j :: 0 <= i < j < |ws| ==> LevelOrder(ws[i].level) < LevelOrder(ws[j].level)
  }

  /** At most one critical, then at most one moderate, then at most one caution
      warning: the levels ascend, so no warning repeats. */
  lemma FoundAscends(critical: seq<Warning>, moderate: seq<Warning>, caution: seq<Warning>)
    requires |critical| <= 1 && |moderate| <= 1 && |caution| <= 1
    requires forall k :: 0 <= k < |critical| ==> critical[k].level == Critical
    requires forall k :: 0 <= k < |moderate| ==> moderate[k].level == Moderate
    requires forall k :: 0 <= k < |caution| ==> caution[k].level == Caution
    ensures LevelsAscend(critical + moderate + caution)
    ensures Distinct(critical + moderate + caution)
  {
    var found := critical + moderate + caution;
    forall i, j | 0 <= i < j < |found| ensures LevelOrder(found[i].level) < LevelOrder(found[j].level) {
      if i < |critical| {
        assert found[i].level == Critical;
      } else if i < |critical| + |moderate| {
        assert found[i].level == Moderate;
        assert j >= |critical| + |moderate|;
        assert found[j].level == Caution;
      } else {
        assert false;
      }
    }
  }

  /** Known and different roles raise a critical warning at the head of the list. */
  lemma RoleClashFirst(jdRole: string, resumeRole: string, jdLevel: Seniority, resumeLevel: Seniority, reqScore: real)
    requires RolesClash(jdRole, resumeRole)
    ensures MismatchWarnings(jdRole, resumeRole, jdLevel, resumeLevel, reqScore)[0].level == Critical
  {
  }

  // ---------------------------------------------------------------------------
  // The whole page
  // ---------------------------------------------------------------------------

  datatype MatchPage = MatchPage(
    score: real,
    confidence: Confidence,
    matched: set<string>,
    missing: set<string>,
    breakdown: Breakdown,
    sections: SectionScores,
    jdRole: string,
    resumeRole: string,
    roleFit: int,
    jdLevel: Seniority,
    resumeLevel: Seniority,
    requirements: seq<string>,
    requirementScore: real,
    warnings: seq<Warning>,
    ats: Scores,
    atsInsights: seq<string>)

  /** The pure part of `upload_resume_and_jd`, from the two extracted texts and the
      two skill lists onwards. */
  function AnalyseMatch(resumeText: string, jdText: string, resumeSkills: seq<string>, jdSkills: seq<string>): (p: MatchPage)
    ensures p.score == CalculateMatchScore(resumeSkills, jdSkills)
    ensures p.confidence == ConfidenceLevel(p.score)
    ensures p.matched == CommonSkills(resumeSkills, jdSkills) && p.missing == MissingSkills(resumeSkills, jdSkills)
    ensures p.breakdown == ScoreBreakdown(resumeSkills, jdSkills)
    ensures p.sections == ResumeSectionScores(p.score)
    ensures p.jdRole == DetectJobRole(jdText) && p.resumeRole == DetectJobRole(resumeText)
    ensures p.roleFit == RoleFitScore(p.jdRole, p.resumeRole)
    ensures p.jdLevel == DetectSeniority(jdText) && p.resumeLevel == DetectSeniority(resumeText)
    ensures p.requirements == ExtractRequirements(jdText)
    ensures p.requirementScore == RequirementMatchScore(resumeText, p.requirements)
    ensures p.warnings == MismatchWarnings(p.jdRole, p.resumeRole, p.jdLevel, p.resumeLevel, p.requirementScore)
    ensures 0.0 <= p.score <= 100.0
    ensures p.matched + p.missing == ToSet(jdSkills) && p.matched !! p.missing
    ensures p.breakdown.matchedSkills == |p.matched| && p.breakdown.missingSkills == |p.missing|
    ensures p.confidence == High <==> p.score >= 75.0
    ensures 0.0 <= p.sections.experience <= p.sections.technical <= p.sections.ats <= 100.0
    ensures p.roleFit in {0, 40, 100}
    ensures p.roleFit == 40 <==> RoleWarning(p.jdRole, p.resumeRole) in p.warnings
    ensures 0.0 <= p.requirementScore <= 100.0
    ensures |p.warnings| >= 1
    ensures (p.ats, p.atsInsights) == AtsScorecard(resumeText, jdText, resumeSkills, jdSkills)
  {
    var score := CalculateMatchScore(resumeSkills, jdSkills);
    var jdRole := DetectJobRole(jdText);
    var resumeRole := DetectJobRole(resumeText);
    var jdLevel := DetectSeniority(jdText);
    var resumeLevel := DetectSeniority(resumeText);
    var reqs := ExtractRequirements(jdText);
    var reqScore := RequirementMatchScore(resumeText, reqs);
    var ats := AtsScorecard(resumeText, jdText, resumeSkills, jdSkills);
    MatchedMissingPartition(resumeSkills, jdSkills);
    MatchPage(
      score, ConfidenceLevel(score),
      CommonSkills(resumeSkills, jdSkills), MissingSkills(resumeSkills, jdSkills),
      ScoreBreakdown(resumeSkills, jdSkills), ResumeSectionScores(score),
      jdRole, resumeRole, RoleFitScore(jdRole, resumeRole),
      jdLevel, resumeLevel, reqs, reqScore,
      MismatchWarnings(jdRole, resumeRole, jdLevel, resumeLevel, reqScore),
      ats.0, ats.1)
  }
}
