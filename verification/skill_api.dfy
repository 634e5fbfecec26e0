/** The normalise endpoint: raw skill text to a canonical skill name. */
module SkillApi {
  import opened Strings
  import opened Collections
  import opened SortedStrings
  import opened SkillModel

  const TextRequired: string := "text field required"

  /** A 400 response with its error, or a 200 response naming the skill, if any. */
  datatype NormalizeResponse = BadRequest(error: string) | Resolved(canonicalSkill: Option<string>)

  /** `request.data.get("text", "").lower().strip()` */
  function Query(text: Option<string>): string {
    match text
    case None => ""
    case Some(t) => Strip(Lower(t))
  }

  /** Some skill of the table has this canonical name. */
  predicate HasCanonical(table: seq<Skill>, name: string) {
    exists i :: 0 <= i < |table| && table[i].canonicalName == name
  }

  /** The position of the first skill whose alias list holds `q` exactly, or -1. */
  function FirstAliasOwner(table: seq<Skill>, q: string): (i: int)
    ensures -1 <= i < |table|
    ensures i == -1 <==> forall j :: 0 <= j < |table| ==> q !in table[j].aliases
    ensures i >= 0 ==> q in table[i].aliases && forall j :: 0 <= j < i ==> q !in table[j].aliases
    decreases |table|
  {
    if |table| == 0 then -1
    else if q in table[0].aliases then 0
    else
      var rest := FirstAliasOwner(table[1..], q);
      assert forall j :: 1 <= j < |table| ==> table[j] == table[1..][j - 1];
      if rest == -1 then -1 else rest + 1
  }

  /** `SkillNormalizeAPIView.post` over the skill table in its stored order: an
      exact canonical name first, then the first skill listing the text as an
      alias, else no skill. */
  function Normalize(text: Option<string>, table: seq<Skill>): (r: NormalizeResponse)
    ensures r.BadRequest? <==> |Query(text)| == 0
    ensures r.BadRequest? ==> r.error == TextRequired
    ensures |Query(text)| > 0 && HasCanonical(table, Query(text)) ==> r == Resolved(Some(Query(text)))
    ensures r.Resolved? && r.canonicalSkill.Some? ==> HasCanonical(table, r.canonicalSkill.value)
    ensures r == Resolved(None) <==>
      |Query(text)| > 0 && !HasCanonical(table, Query(text)) && forall j :: 0 <= j < |table| ==> Query(text) !in table[j].aliases
    ensures r.Resolved? && r.canonicalSkill.Some? && r.canonicalSkill.value != Query(text) ==>
      exists i :: 0 <= i < |table| && table[i].canonicalName == r.canonicalSkill.value
        && Query(text) in table[i].aliases && forall j :: 0 <= j < i ==> Query(text) !in table[j].aliases
  {
    var q := Query(text);
    if |q| == 0 then BadRequest(TextRequired)
    else if HasCanonical(table, q) then Resolved(Some(q))
    else
      var i := FirstAliasOwner(table, q);
      if i == -1 then Resolved(None) else Resolved(Some(table[i].canonicalName))
  }

  /** The canonical names of the table, in order. */
  function Names(table: seq<Skill>): (names: seq<string>)
    ensures |names| == |table|
    ensures forall i :: 0 <= i < |table| ==> names[i] == table[i].canonicalName
  {
    Map(table, (s: Skill) => s.canonicalName)
  }

  /** With the table kept in canonical-name order, an alias resolves to the least
      canonical name among the skills listing it. */
  lemma AliasPicksLeastName(text: Option<string>, table: seq<Skill>, j: int)
    requires StrictlySorted(Names(table))
    requires |Query(text)| > 0 && !HasCanonical(table, Query(text))
    requires 0 <= j < |table| && Query(text) in table[j].aliases
    ensures Normalize(text, table).Resolved? && Normalize(text, table).canonicalSkill.Some?
    ensures var n := Normalize(text, table).canonicalSkill.value;
      n == table[j].canonicalName || Less(n, table[j].canonicalName)
  {
    var i := FirstAliasOwner(table, Query(text));
    assert Names(table)[i] == table[i].canonicalName && Names(table)[j] == table[j].canonicalName;
  }

  /** Upper-case input resolves as its lower-case form. */
  lemma NormalizeIgnoresCase(t: string, table: seq<Skill>)
    ensures Normalize(Some(Upper(t)), table) == Normalize(Some(t), table)
  {
    LowerUpper(t);
  }
}
