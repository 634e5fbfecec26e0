/** Skill extraction, the skill match score, role and seniority detection, requirement
    extraction and coverage, the role fit score and the learning roadmap of the matcher. */
module Matcher {
  import opened Strings
  import opened Collections

  function Min(a: int, b: int): int {
    if a <= b then a else b
  }

  function MinReal(a: real, b: real): real {
    if a <= b then a else b
  }

  function MaxReal(a: real, b: real): real {
    if a <= b then b else a
  }

  /** Scaling by a positive factor keeps a strict order. */
  lemma ScaleStrict(x: real, y: real, c: real)
    requires 0.0 < c
    ensures x < y ==> x * c < y * c
  {
    assert y * c - x * c == (y - x) * c;
  }

  /** `(n / d) * 100`: the share of `n` out of `d`, as a percentage. */
  function Percent(n: nat, d: nat): (pct: real)
    requires 0 < d && n <= d
    ensures pct * d as real == 100.0 * n as real
    ensures pct == 100.0 * n as real / d as real
    ensures 0.0 <= pct <= 100.0
    ensures pct == 100.0 <==> n == d
    ensures pct == 0.0 <==> n == 0
  {
    var q := n as real / d as real;
    assert q * d as real == n as real;
    FractionFacts(n, d, q);
    q * 100.0
  }

  /** The facts about a fraction `q = n / d` of a whole that `Percent` rests on. */
  lemma FractionFacts(n: nat, d: nat, q: real)
    requires 0 < d && n <= d && q * d as real == n as real
    ensures 0.0 <= q * 100.0 <= 100.0
    ensures q * 100.0 == 100.0 <==> n == d
    ensures q * 100.0 == 0.0 <==> n == 0
    ensures q * 100.0 * d as real == 100.0 * n as real
    ensures q * 100.0 == 100.0 * n as real / d as real
  {
    FractionBounds(n, d, q);
    FractionWhole(n, d, q);
    FractionNone(n, d, q);
    ScaleStrict(q, 1.0, 100.0);
    ScaleStrict(1.0, q, 100.0);
    ScaleStrict(0.0, q, 100.0);
    ScaleNonStrict(q, 1.0, 100.0);
    ScaleNonStrict(0.0, q, 100.0);
    assert q * 100.0 * d as real == (q * d as real) * 100.0;
    assert (100.0 * n as real / d as real) * d as real == 100.0 * n as real;
    SameProduct(q * 100.0, 100.0 * n as real / d as real, d as real);
  }

  /** A fraction of a whole lies in [0, 1]. */
  lemma FractionBounds(n: nat, d: nat, q: real)
    requires 0 < d && n <= d && q * d as real == n as real
    ensures 0.0 <= q <= 1.0
  {
    ScaleStrict(q, 0.0, d as real);
    ScaleStrict(1.0, q, d as real);
  }

  /** The fraction is 1 exactly for the whole. */
  lemma FractionWhole(n: nat, d: nat, q: real)
    requires 0 < d && q * d as real == n as real
    ensures q == 1.0 <==> n == d
  {
    if n == d {
      SameProduct(q, 1.0, d as real);
    }
  }

  /** The fraction is 0 exactly for nothing. */
  lemma FractionNone(n: nat, d: nat, q: real)
    requires 0 < d && q * d as real == n as real
    ensures q == 0.0 <==> n == 0
  {
    if n == 0 {
      SameProduct(q, 0.0, d as real);
    }
  }

  /** Two reals with the same product by a positive factor are equal. */
  lemma SameProduct(x: real, y: real, c: real)
    requires 0.0 < c && x * c == y * c
    ensures x == y
  {
    ScaleStrict(x, y, c);
    ScaleStrict(y, x, c);
  }

  /** A larger share of the same whole is a larger percentage. */
  lemma PercentMonotone(n: nat, m: nat, d: nat)
    requires 0 < d && n <= m <= d
    ensures Percent(n, d) <= Percent(m, d)
  {
    var q := n as real / d as real;
    var q' := m as real / d as real;
    assert q * d as real == n as real && q' * d as real == m as real;
    ScaleStrict(q', q, d as real);
    assert q <= q';
    ScaleNonStrict(q, q', 100.0);
  }

  /** Scaling by a non-negative factor keeps a non-strict order. */
  lemma ScaleNonStrict(x: real, y: real, c: real)
    requires 0.0 <= c && x <= y
    ensures x * c <= y * c
  {
    assert y * c - x * c == (y - x) * c;
  }

  // ---------------------------------------------------------------------------
  // Skill extraction
  // ---------------------------------------------------------------------------

  /** The skill taxonomy: each canonical skill name with the aliases that name it. */
  type Taxonomy = map<string, seq<string>>

  /** The regex anchor `\b` holds at position `k` of `s`: a word character on
      exactly one side of it (the ends of `s` count as non-word). */
  predicate BoundaryAt(s: string, k: int)
    requires 0 <= k <= |s|
  {
    (k > 0 && IsWordChar(s[k - 1])) != (k < |s| && IsWordChar(s[k]))
  }

  /** `\b` + re.escape(a) + `\b` matches `s` starting at position `i`. */
  predicate WholeWordAt(a: string, s: string, i: int) {
    0 <= i && i + |a| <= |s| && s[i..i + |a|] == a && BoundaryAt(s, i) && BoundaryAt(s, i + |a|)
  }

  /** `re.search(r"\b" + re.escape(a) + r"\b", s)` finds a match. */
  predicate WholeWordOccurs(a: string, s: string) {
    exists i | 0 <= i <= |s| - |a| :: WholeWordAt(a, s, i)
  }

  /** Some alias of the list is found as a whole word in `t`. */
  predicate SomeAliasMatches(aliases: seq<string>, t: string) {
    exists j | 0 <= j < |aliases| :: WholeWordOccurs(aliases[j], t)
  }

  /** A whole-word match is in particular a substring match. */
  lemma WholeWordIsSubstring(a: string, s: string)
    requires WholeWordOccurs(a, s)
    ensures Occurs(a, s)
  {
    var i :| 0 <= i <= |s| - |a| && WholeWordAt(a, s, i);
    OccursAtWitness(a, s, i);
  }

  /** `extract_skills(text)`: the canonical names of the taxonomy with an alias
      that appears as a whole word in the lower-cased text. */
  function ExtractSkills(tax: Taxonomy, text: string): (found: set<string>)
    ensures found <= tax.Keys
    ensures forall k, j :: k in tax && 0 <= j < |tax[k]| && WholeWordOccurs(tax[k][j], Lower(text)) ==> k in found
    ensures forall k :: k in found ==> exists j :: 0 <= j < |tax[k]| && WholeWordOccurs(tax[k][j], Lower(text))
    ensures forall k :: k in found ==> exists j :: 0 <= j < |tax[k]| && Occurs(tax[k][j], Lower(text))
  {
    var found := set k | k in tax && SomeAliasMatches(tax[k], Lower(text));
    assert forall k :: k in found ==> exists j :: 0 <= j < |tax[k]| && Occurs(tax[k][j], Lower(text)) by {
      forall k | k in found ensures exists j :: 0 <= j < |tax[k]| && Occurs(tax[k][j], Lower(text)) {
        var j :| 0 <= j < |tax[k]| && WholeWordOccurs(tax[k][j], Lower(text));
        WholeWordIsSubstring(tax[k][j], Lower(text));
      }
    }
    found
  }

  /** Extraction ignores letter case: upper-casing the text finds the same skills. */
  lemma ExtractSkillsIgnoresCase(tax: Taxonomy, text: string)
    ensures ExtractSkills(tax, Upper(text)) == ExtractSkills(tax, text)
  {
    LowerUpper(text);
  }

  /** A larger taxonomy (more skills, more aliases per skill) finds at least as much. */
  lemma ExtractSkillsMonotone(tax: Taxonomy, bigger: Taxonomy, text: string)
    requires tax.Keys <= bigger.Keys
    requires forall k, j :: k in tax && 0 <= j < |tax[k]| ==> tax[k][j] in bigger[k]
    ensures ExtractSkills(tax, text) <= ExtractSkills(bigger, text)
  {
    forall k | k in ExtractSkills(tax, text) ensures k in ExtractSkills(bigger, text) {
      var j :| 0 <= j < |tax[k]| && WholeWordOccurs(tax[k][j], Lower(text));
      var j' :| 0 <= j' < |bigger[k]| && bigger[k][j'] == tax[k][j];
      assert WholeWordOccurs(bigger[k][j'], Lower(text));
    }
  }

  // ---------------------------------------------------------------------------
  // Skill match score
  // ---------------------------------------------------------------------------

  /** The distinct skills both lists share: `set(resume_skills) & set(jd_skills)`. */
  function CommonSkills(resumeSkills: seq<string>, jdSkills: seq<string>): (m: set<string>)
    ensures forall s :: s in m <==> s in resumeSkills && s in jdSkills
  {
    ToSet(resumeSkills) * ToSet(jdSkills)
  }

  /** |common| / |jd_skills| * 100, for a non-empty job skill list. */
  function OverlapPercent(resumeSkills: seq<string>, jdSkills: seq<string>): (pct: real)
    requires |jdSkills| > 0
    ensures pct * |jdSkills| as real == 100.0 * |CommonSkills(resumeSkills, jdSkills)| as real
    ensures 0.0 <= pct <= 100.0
    ensures pct == 100.0 ==> ToSet(jdSkills) <= ToSet(resumeSkills)
    ensures Distinct(jdSkills) ==> (pct == 100.0 <==> ToSet(jdSkills) <= ToSet(resumeSkills))
  {
    var common := CommonSkills(resumeSkills, jdSkills);
    var js := ToSet(jdSkills);
    ToSetCard(jdSkills);
    SubsetCard(common, js);
    assert Distinct(jdSkills) && js <= ToSet(resumeSkills) ==> common == js;
    Percent(|common|, |jdSkills|)
  }

  /** A subset is never larger, and a subset of the same size is the whole set. */
  lemma SubsetCard<T>(a: set<T>, b: set<T>)
    requires a <= b
    ensures |a| <= |b|
    ensures |a| == |b| ==> a == b
  {
    assert b == a + (b - a);
    assert |b| == |a| + |b - a|;
    if |a| == |b| {
      assert |b - a| == 0;
      assert b - a == {};
    }
  }

  /** `calculate_match_score(resume_skills, jd_skills)`: the share of job skills the
      resume covers, or min(60, 5 per resume skill) when the job lists no skill. */
  function CalculateMatchScore(resumeSkills: seq<string>, jdSkills: seq<string>): (score: real)
    ensures 0.0 <= score <= 100.0
    ensures |jdSkills| == 0 ==> score == Min(60, 5 * |resumeSkills|) as real
    ensures |jdSkills| > 0 ==> score == OverlapPercent(resumeSkills, jdSkills)
    ensures score == 100.0 ==> ToSet(jdSkills) <= ToSet(resumeSkills)
    ensures |jdSkills| > 0 && Distinct(jdSkills) ==> (score == 100.0 <==> ToSet(jdSkills) <= ToSet(resumeSkills))
  {
    if |jdSkills| == 0 then Min(60, 5 * |resumeSkills|) as real
    else OverlapPercent(resumeSkills, jdSkills)
  }

  // ---------------------------------------------------------------------------
  // Role detection
  // ---------------------------------------------------------------------------

  /** A role table: role labels with their trigger phrases, in definition order. */
  type RoleTable = seq<(string, seq<string>)>

  const UnknownRole: string := "Unknown"

  /** ROLE_KEYWORDS, in the order the dictionary defines them. */
  const RoleKeywords: RoleTable := [
    ("Data Scientist", ["data scientist", "machine learning", "statistics",
                        "predictive modeling", "feature engineering", "python"]),
    ("Data Analyst", ["data analyst", "sql", "excel", "power bi", "tableau"]),
    ("Machine Learning Engineer", ["ml engineer", "model deployment", "tensorflow",
                                   "pytorch", "scikit-learn"]),
    ("Backend Developer", ["backend", "django", "flask", "fastapi",
                           "spring", "rest api", "microservices"]),
    ("Frontend Developer", ["frontend", "react", "angular", "vue",
                            "javascript", "html", "css"]),
    ("Full Stack Developer", ["full stack", "frontend", "backend", "react", "node", "django"]),
    ("Software Engineer", ["software engineer", "software developer",
                           "data structures", "algorithms"]),
    ("Java Developer", ["java", "spring", "spring boot", "hibernate"]),
    ("Python Developer", ["python", "django", "flask", "automation"])
  ]

  /** The test "is a substring of `t`": Python's `k in t`. */
  function OccursIn(t: string): string -> bool {
    (p: string) => Occurs(p, t)
  }

  /** `sum(1 for k in keywords if k in t)` */
  function KeywordHits(keywords: seq<string>, t: string): (n: nat)
    ensures n <= |keywords|
  {
    CountWhere(keywords, OccursIn(t))
  }

  /** No hit at all exactly when no keyword is a substring. */
  lemma KeywordHitsZeroIff(keywords: seq<string>, t: string)
    ensures KeywordHits(keywords, t) == 0 <==> !OccursAny(keywords, t)
  {
    CountWhereNone(keywords, OccursIn(t));
  }

  /** Every keyword hits exactly when each one is a substring. */
  lemma KeywordHitsAllIff(keywords: seq<string>, t: string)
    ensures KeywordHits(keywords, t) == |keywords| <==> forall k :: 0 <= k < |keywords| ==> Occurs(keywords[k], t)
  {
    CountWhereAll(keywords, OccursIn(t));
  }

  /** The score of every role of the table, in table order. */
  function RoleScores(table: RoleTable, text: string): (scores: seq<nat>)
    ensures |scores| == |table|
    ensures forall i :: 0 <= i < |table| ==> scores[i] == KeywordHits(table[i].1, Lower(text))
  {
    seq(|table|, i requires 0 <= i < |table| => KeywordHits(table[i].1, Lower(text)))
  }

  /** Index `i` holds a maximal score and every earlier score is strictly smaller. */
  predicate IsFirstMax(xs: seq<nat>, i: int) {
    0 <= i < |xs|
    && (forall j :: 0 <= j < |xs| ==> xs[j] <= xs[i])
    && (forall j :: 0 <= j < i ==> xs[j] < xs[i])
  }

  /** `max(keys, key=scores.get)`: walking left to right, a later key replaces the
      current best only when its score is strictly greater. */
  function FirstMaxIndex(xs: seq<nat>): (i: nat)
    requires |xs| > 0
    ensures IsFirstMax(xs, i)
  {
    if |xs| == 1 then 0
    else
      var k := FirstMaxIndex(xs[..|xs| - 1]);
      if xs[|xs| - 1] > xs[k] then |xs| - 1 else k
  }

  /** The first maximal index is unique. */
  lemma FirstMaxUnique(xs: seq<nat>, i: int, j: int)
    requires IsFirstMax(xs, i) && IsFirstMax(xs, j)
    ensures i == j
  {
    FirstMaxOrder(xs, i, j);
    FirstMaxOrder(xs, j, i);
  }

  lemma FirstMaxOrder(xs: seq<nat>, i: int, j: int)
    requires IsFirstMax(xs, i) && IsFirstMax(xs, j)
    ensures i < j ==> xs[i] < xs[j] && xs[j] <= xs[i]
  {
  }

  /** The table position `detect_job_role` picks, or -1 when it answers "Unknown". */
  function DetectRoleIndex(table: RoleTable, text: string): (i: int)
    requires |table| > 0
    ensures i == -1 <==> forall j :: 0 <= j < |table| ==> RoleScores(table, text)[j] == 0
    ensures i != -1 ==> IsFirstMax(RoleScores(table, text), i) && RoleScores(table, text)[i] > 0
  {
    var scores := RoleScores(table, text);
    var best := FirstMaxIndex(scores);
    if scores[best] > 0 then best else -1
  }

  /** `detect_job_role` over a role table: the first role with the most keyword hits,
      or "Unknown" when no role has any. */
  function DetectRoleIn(table: RoleTable, text: string): (role: string)
    requires |table| > 0
    ensures (forall j :: 0 <= j < |table| ==> RoleScores(table, text)[j] == 0) ==> role == UnknownRole
    ensures (exists j :: 0 <= j < |table| && RoleScores(table, text)[j] > 0) ==>
      exists i :: IsFirstMax(RoleScores(table, text), i) && RoleScores(table, text)[i] > 0 && role == table[i].0
  {
    var i := DetectRoleIndex(table, text);
    if i == -1 then UnknownRole else table[i].0
  }

  /** `detect_job_role(text)` with the built-in ROLE_KEYWORDS table. */
  function DetectJobRole(text: string): string {
    DetectRoleIn(RoleKeywords, text)
  }

  /** With the built-in table, "Unknown" comes out exactly when no role has a hit;
      otherwise the answer is the first role, in table order, with the most hits. */
  lemma DetectJobRoleSpec(text: string)
    ensures DetectJobRole(text) == UnknownRole <==>
      forall j :: 0 <= j < |RoleKeywords| ==> RoleScores(RoleKeywords, text)[j] == 0
    ensures DetectJobRole(text) != UnknownRole ==>
      exists i :: IsFirstMax(RoleScores(RoleKeywords, text), i) && DetectJobRole(text) == RoleKeywords[i].0
  {
    var i := DetectRoleIndex(RoleKeywords, text);
    assert forall j :: 0 <= j < |RoleKeywords| ==> RoleKeywords[j].0 != UnknownRole;
  }

  /** "python" ties Data Scientist with Python Developer; the earlier role wins. */
  lemma DetectJobRolePythonExample()
    ensures DetectJobRole("python") == "Data Scientist"
  {
    var t := "python";
    LowerOfLowerText(t);
    var scores := RoleScores(RoleKeywords, t);
    forall i | 0 <= i < |RoleKeywords| ensures scores[i] <= 1 {
      if i == 0 || i == 8 {
        PythonHitsRole(i);
      } else {
        PythonMissesRole(i);
      }
    }
    PythonHitsRole(0);
    assert IsFirstMax(scores, 0);
    var best := DetectRoleIndex(RoleKeywords, t);
    FirstMaxUnique(scores, 0, best);
  }

  lemma PythonHitsRole(i: int)
    requires i == 0 || i == 8
    ensures KeywordHits(RoleKeywords[i].1, "python") == 1
  {
    OccursSelf("python");
    if i == 0 {
      SingleHit(RoleKeywords[0].1, "python", 5);
    } else {
      SingleHit(RoleKeywords[8].1, "python", 0);
    }
  }

  lemma PythonMissesRole(i: int)
    requires 1 <= i <= 7
    ensures KeywordHits(RoleKeywords[i].1, "python") == 0
  {
    NoHits(RoleKeywords[i].1, "python");
  }

  /** No keyword of the list can be a substring of `t`. */
  lemma NoHits(keywords: seq<string>, t: string)
    requires forall j :: 0 <= j < |keywords| ==> CannotOccur(keywords[j], t)
    ensures KeywordHits(keywords, t) == 0
  {
    forall j | 0 <= j < |keywords| ensures !Occurs(keywords[j], t) {
      CannotOccurSound(keywords[j], t);
    }
    KeywordHitsZeroIff(keywords, t);
  }

  /** Exactly one keyword of the list, at `hit`, is a substring of `t`. */
  lemma {:induction false} SingleHit(keywords: seq<string>, t: string, hit: int)
    requires 0 <= hit < |keywords| && Occurs(keywords[hit], t)
    requires forall j :: 0 <= j < |keywords| && j != hit ==> CannotOccur(keywords[j], t)
    ensures KeywordHits(keywords, t) == 1
    decreases |keywords|
  {
    if hit == 0 {
      NoHits(keywords[1..], t);
    } else {
      CannotOccurSound(keywords[0], t);
      SingleHit(keywords[1..], t, hit - 1);
    }
  }

  // ---------------------------------------------------------------------------
  // Seniority detection
  // ---------------------------------------------------------------------------

  datatype Seniority = Intern | Junior | Mid | Senior | Unspecified {
    /** The label the matcher reports. */
    function Label(): string {
      match this
      case Intern => "Intern"
      case Junior => "Junior"
      case Mid => "Mid"
      case Senior => "Senior"
      case Unspecified => "Unspecified"
    }
  }

  const InternMarkers: seq<string> := ["intern", "fresher"]
  const JuniorMarkers: seq<string> := ["junior", "0-1 year", "1 year"]
  const MidMarkers: seq<string> := ["2-4 years", "mid"]
  const SeniorMarkers: seq<string> := ["senior", "5+ years", "lead"]

  /** `detect_seniority(text)`: the first of Intern, Junior, Mid, Senior whose
      alternation matches the lower-cased text, else Unspecified. */
  function DetectSeniority(text: string): (level: Seniority)
    ensures level == Intern <==> OccursAny(InternMarkers, Lower(text))
    ensures level == Junior <==> !OccursAny(InternMarkers, Lower(text)) && OccursAny(JuniorMarkers, Lower(text))
    ensures level == Mid <==>
      !OccursAny(InternMarkers, Lower(text)) && !OccursAny(JuniorMarkers, Lower(text))
      && OccursAny(MidMarkers, Lower(text))
    ensures level == Senior <==>
      !OccursAny(InternMarkers, Lower(text)) && !OccursAny(JuniorMarkers, Lower(text))
      && !OccursAny(MidMarkers, Lower(text)) && OccursAny(SeniorMarkers, Lower(text))
  {
    var t := Lower(text);
    if OccursAny(InternMarkers, t) then Intern
    else if OccursAny(JuniorMarkers, t) then Junior
    else if OccursAny(MidMarkers, t) then Mid
    else if OccursAny(SeniorMarkers, t) then Senior
    else Unspecified
  }

  /** The seniority label is one of the five names, never "Unknown". */
  lemma SeniorityLabels(text: string)
    ensures DetectSeniority(text).Label() in {"Intern", "Junior", "Mid", "Senior", "Unspecified"}
    ensures DetectSeniority(text).Label() != UnknownRole
  {
  }

  /** Priority is positional: an intern marker wins over a senior one. */
  lemma SeniorInternIsIntern()
    ensures DetectSeniority("Senior intern position") == Intern
  {
    var t := "Senior intern position";
    var lt := Lower(t);
    assert lt[7..13] == "intern";
    OccursAtWitness("intern", lt, 7);
    assert InternMarkers[0] == "intern";
  }

  // ---------------------------------------------------------------------------
  // Requirement extraction and coverage
  // ---------------------------------------------------------------------------

  const RequirementPatterns: seq<string> := [
    "experience", "knowledge of", "hands-on", "must have",
    "should have", "required", "responsible for",
    "ability to", "proficiency in"
  ]

  /** The class `[.•\n]` the job description is split on. */
  const RequirementDelimiters: set<char> := {'.', '\U{2022}', '\n'}

  /** Fragments shorter than this are noise. */
  const MinRequirementLength: nat := 15

  /** A stripped fragment is kept: long enough and naming an obligation. */
  predicate IsRequirement(s: string) {
    |s| >= MinRequirementLength && OccursAny(RequirementPatterns, Lower(s))
  }

  /** The stripped fragments of the job description, in order. */
  function JdFragments(jdText: string): seq<string> {
    Map(SplitOn(jdText, RequirementDelimiters), Strip)
  }

  /** A stripped fragment: no whitespace at either end, no delimiter inside. */
  predicate IsCleanFragment(s: string) {
    IsStripped(s) && Avoids(s, RequirementDelimiters)
  }

  /** Stripping a delimiter-free piece leaves a clean fragment. */
  lemma StripClean(p: string)
    requires Avoids(p, RequirementDelimiters)
    ensures IsCleanFragment(Strip(p))
  {
    StripSpec(p);
    StripChars(p);
    var r := Strip(p);
    forall k | 0 <= k < |r| ensures r[k] !in RequirementDelimiters {
      assert r[k] in p;
    }
  }

  lemma FragmentsClean(jdText: string)
    ensures forall x :: x in JdFragments(jdText) ==> IsCleanFragment(x)
  {
    var parts := SplitOn(jdText, RequirementDelimiters);
    var frags := JdFragments(jdText);
    SplitOnSpec(jdText, RequirementDelimiters);
    forall m | 0 <= m < |frags| ensures IsCleanFragment(frags[m]) {
      StripClean(parts[m]);
    }
  }

  /** `extract_requirements(jd_text)` */
  function ExtractRequirements(jdText: string): (reqs: seq<string>)
    ensures forall k :: 0 <= k < |reqs| ==>
      && IsStripped(reqs[k])
      && |reqs[k]| >= MinRequirementLength
      && Avoids(reqs[k], RequirementDelimiters)
      && OccursAny(RequirementPatterns, Lower(reqs[k]))
    ensures IsSubsequence(reqs, JdFragments(jdText))
    ensures |reqs| == CountWhere(JdFragments(jdText), IsRequirement)
    ensures forall f :: f in SplitOn(jdText, RequirementDelimiters) && IsRequirement(Strip(f)) ==> Strip(f) in reqs
  {
    var frags := JdFragments(jdText);
    var reqs := Filter(frags, IsRequirement);
    FragmentsClean(jdText);
    SubsequenceMembers(reqs, frags);
    assert forall k :: 0 <= k < |reqs| ==> IsCleanFragment(reqs[k]) && IsRequirement(reqs[k]);
    FragmentsComplete(jdText);
    reqs
  }

  /** Every split fragment appears, stripped, among the fragments. */
  lemma FragmentsComplete(jdText: string)
    ensures forall f :: f in SplitOn(jdText, RequirementDelimiters) ==> Strip(f) in JdFragments(jdText)
  {
    var parts := SplitOn(jdText, RequirementDelimiters);
    forall f | f in parts ensures Strip(f) in JdFragments(jdText) {
      var m :| 0 <= m < |parts| && parts[m] == f;
      assert JdFragments(jdText)[m] == Strip(f);
    }
  }

  /** Some whitespace token of the lower-cased requirement is a substring of the
      lower-cased resume. */
  predicate Addressed(req: string, lowResume: string) {
    OccursAny(Words(Lower(req)), lowResume)
  }

  /** The test "addressed by this lower-cased resume". */
  function AddressedBy(lowResume: string): string -> bool {
    (req: string) => Addressed(req, lowResume)
  }

  /** How many requirements are addressed. */
  function AddressedCount(reqs: seq<string>, lowResume: string): (n: nat)
    ensures n <= |reqs|
  {
    CountWhere(reqs, AddressedBy(lowResume))
  }

  /** A requirement addressed by a text stays addressed by any text containing it. */
  lemma AddressedExtends(req: string, t: string, a: string, b: string)
    requires Addressed(req, t)
    ensures Addressed(req, a + t + b)
  {
    var ws := Words(Lower(req));
    var k :| 0 <= k < |ws| && Occurs(ws[k], t);
    OccursInConcat(ws[k], a, t, b);
  }

  lemma AddressedCountExtends(reqs: seq<string>, t: string, a: string, b: string)
    ensures AddressedCount(reqs, t) <= AddressedCount(reqs, a + t + b)
  {
    forall k | 0 <= k < |reqs| && AddressedBy(t)(reqs[k]) ensures AddressedBy(a + t + b)(reqs[k]) {
      AddressedExtends(reqs[k], t, a, b);
    }
    CountWhereMonotone(reqs, AddressedBy(t), AddressedBy(a + t + b));
  }

  /** `requirement_match_score(resume_text, requirements)`: the share of requirements
      addressed, 0 when there are none. */
  function RequirementMatchScore(resumeText: string, reqs: seq<string>): (score: real)
    ensures |reqs| == 0 ==> score == 0.0
    ensures |reqs| > 0 ==> score == 100.0 * AddressedCount(reqs, Lower(resumeText)) as real / |reqs| as real
    ensures 0.0 <= score <= 100.0
    ensures |reqs| > 0 ==> (score == 100.0 <==> forall k :: 0 <= k < |reqs| ==> Addressed(reqs[k], Lower(resumeText)))
    ensures score == 0.0 <==> forall k :: 0 <= k < |reqs| ==> !Addressed(reqs[k], Lower(resumeText))
  {
    if |reqs| == 0 then 0.0
    else
      RequirementShareExtremes(reqs, Lower(resumeText));
      RequirementShare(reqs, Lower(resumeText))
  }

  /** The percentage of a non-empty requirement list that a lower-cased resume
      addresses. */
  function RequirementShare(reqs: seq<string>, low: string): (pct: real)
    requires |reqs| > 0
    ensures pct * |reqs| as real == 100.0 * AddressedCount(reqs, low) as real
    ensures pct == 100.0 * AddressedCount(reqs, low) as real / |reqs| as real
    ensures 0.0 <= pct <= 100.0
    ensures pct == 100.0 <==> AddressedCount(reqs, low) == |reqs|
    ensures pct == 0.0 <==> AddressedCount(reqs, low) == 0
  {
    Percent(AddressedCount(reqs, low), |reqs|)
  }

  /** The share is 100 exactly when every requirement is addressed, and 0 exactly
      when none is. */
  lemma RequirementShareExtremes(reqs: seq<string>, low: string)
    requires |reqs| > 0
    ensures RequirementShare(reqs, low) == 100.0 <==> forall k :: 0 <= k < |reqs| ==> Addressed(reqs[k], low)
    ensures RequirementShare(reqs, low) == 0.0 <==> forall k :: 0 <= k < |reqs| ==> !Addressed(reqs[k], low)
  {
    CountWhereAll(reqs, AddressedBy(low));
    CountWhereNone(reqs, AddressedBy(low));
  }

  /** Adding text around the resume never lowers the requirement score. */
  lemma RequirementScoreMonotone(resumeText: string, reqs: seq<string>, a: string, b: string)
    ensures RequirementMatchScore(resumeText, reqs) <= RequirementMatchScore(a + resumeText + b, reqs)
  {
    if |reqs| > 0 {
      LowerAppend(a, resumeText);
      LowerAppend(a + resumeText, b);
      AddressedCountExtends(reqs, Lower(resumeText), Lower(a), Lower(b));
      PercentMonotone(AddressedCount(reqs, Lower(resumeText)), AddressedCount(reqs, Lower(a + resumeText + b)), |reqs|);
    }
  }

  // ---------------------------------------------------------------------------
  // Role fit
  // ---------------------------------------------------------------------------

  /** `role_fit_score(jd_role, resume_role)` */
  function RoleFitScore(jdRole: string, resumeRole: string): (fit: int)
    ensures fit in {0, 40, 100}
    ensures fit == 0 <==> jdRole == UnknownRole || resumeRole == UnknownRole
    ensures fit == 100 <==> jdRole != UnknownRole && resumeRole != UnknownRole && jdRole == resumeRole
    ensures fit == 40 <==> jdRole != UnknownRole && resumeRole != UnknownRole && jdRole != resumeRole
  {
    if jdRole == UnknownRole || resumeRole == UnknownRole then 0
    else if jdRole == resumeRole then 100
    else 40
  }

  lemma RoleFitSymmetric(a: string, b: string)
    ensures RoleFitScore(a, b) == RoleFitScore(b, a)
  {
  }

  // ---------------------------------------------------------------------------
  // Skill roadmap
  // ---------------------------------------------------------------------------

  function RoadmapSteps(skill: string): seq<string> {
    [ "Learn fundamentals of " + skill,
      "Build a small project using " + skill,
      "Apply " + skill + " in a real-world scenario" ]
  }

  /** `generate_skill_roadmap(missing_skills)`: three learning steps for every
      distinct missing skill, each step naming the skill. */
  function GenerateSkillRoadmap(missing: seq<string>): (roadmap: map<string, seq<string>>)
    ensures roadmap.Keys == ToSet(missing)
    ensures forall s :: s in roadmap ==> |roadmap[s]| == 3
    ensures forall s, k :: s in roadmap && 0 <= k < |roadmap[s]| ==> Occurs(s, roadmap[s][k])
  {
    var roadmap := map s | s in ToSet(missing) :: RoadmapSteps(s);
    forall s | s in roadmap ensures forall k :: 0 <= k < 3 ==> Occurs(s, roadmap[s][k]) {
      OccursSelf(s);
      OccursInConcat(s, "Learn fundamentals of ", s, "");
      OccursInConcat(s, "Build a small project using ", s, "");
      OccursInConcat(s, "Apply ", s, " in a real-world scenario");
      assert "Learn fundamentals of " + s + "" == roadmap[s][0];
      assert "Build a small project using " + s + "" == roadmap[s][1];
    }
    roadmap
  }
}
