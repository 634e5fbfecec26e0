/** Text normalisation and table-driven skill lookup of the skills service. */
module SkillText {
  import opened Strings
  import opened Collections
  import opened SortedStrings
  import opened SkillModel

  /** A character `[a-z0-9\s]`: what normalisation keeps. */
  predicate IsNormalChar(c: char) {
    IsLowerLetter(c) || IsDigit(c) || IsSpace(c)
  }

  /** One character of `re.sub(r"[^a-z0-9\s]", " ", text.lower())`. */
  function NormalizeChar(c: char): char {
    var l := LowerChar(c);
    if IsNormalChar(l) then l else ' '
  }

  /** `normalize_text(text)` */
  function NormalizeText(text: string): (r: string)
    ensures |r| == |text|
    ensures forall i :: 0 <= i < |r| ==> IsNormalChar(r[i])
    ensures forall i :: 0 <= i < |text| && (IsUpper(text[i]) || IsNormalChar(text[i])) ==> r[i] == LowerChar(text[i])
    ensures forall i :: 0 <= i < |text| && !IsUpper(text[i]) && !IsNormalChar(text[i]) ==> r[i] == ' '
  {
    seq(|text|, i requires 0 <= i < |text| => NormalizeChar(text[i]))
  }

  /** Normalising twice is normalising once. */
  lemma NormalizeIdempotent(text: string)
    ensures NormalizeText(NormalizeText(text)) == NormalizeText(text)
  {
  }

  /** The strings a skill is looked up by: its canonical name, then its aliases. */
  function Candidates(skill: Skill): seq<string> {
    [skill.canonicalName] + skill.aliases
  }

  /** Some stripped candidate is a substring of the text, or is close to it by the
      similarity test. */
  predicate SkillFound(skill: Skill, text: string, similar: (string, string) -> bool) {
    exists c :: c in Candidates(skill) && (Occurs(Strip(c), text) || similar(Strip(c), text))
  }

  /** The canonical names found in a prefix of the table, in increasing order. */
  function FoundNames(table: seq<Skill>, text: string, similar: (string, string) -> bool): (names: seq<string>)
    ensures StrictlySorted(names)
    ensures forall n :: n in names <==> exists i :: 0 <= i < |table| && table[i].canonicalName == n && SkillFound(table[i], text, similar)
  {
    if |table| == 0 then []
    else
      var pre := table[..|table| - 1];
      var last := table[|table| - 1];
      var before := FoundNames(pre, text, similar);
      var found := SkillFound(last, text, similar);
      var names := if found then Insert(before, last.canonicalName) else before;
      assert forall n :: n in names <==> n in before || (n == last.canonicalName && found);
      assert table == pre + [last];
      FoundNamesStep(table, pre, last, text, similar, before, names);
      names
  }

  /** The names found in a table with one more skill are those found before, plus
      that skill's name when it is found. */
  lemma FoundNamesStep(table: seq<Skill>, pre: seq<Skill>, last: Skill, text: string,
                       similar: (string, string) -> bool, before: seq<string>, names: seq<string>)
    requires table == pre + [last]
    requires forall n :: n in before <==>
      exists i :: 0 <= i < |pre| && pre[i].canonicalName == n && SkillFound(pre[i], text, similar)
    requires forall n :: n in names <==> n in before || (n == last.canonicalName && SkillFound(last, text, similar))
    ensures forall n :: n in names <==>
      exists i :: 0 <= i < |table| && table[i].canonicalName == n && SkillFound(table[i], text, similar)
  {
    forall n | n in names
      ensures exists i :: 0 <= i < |table| && table[i].canonicalName == n && SkillFound(table[i], text, similar)
    {
      if n in before {
        var i :| 0 <= i < |pre| && pre[i].canonicalName == n && SkillFound(pre[i], text, similar);
        assert table[i] == pre[i];
      } else {
        assert table[|pre|] == last;
      }
    }
    forall n | exists i :: 0 <= i < |table| && table[i].canonicalName == n && SkillFound(table[i], text, similar)
      ensures n in names
    {
      var i :| 0 <= i < |table| && table[i].canonicalName == n && SkillFound(table[i], text, similar);
      if i < |pre| {
        assert pre[i] == table[i];
      } else {
        assert table[i] == last;
      }
    }
  }

  /** `extract_skills_from_text(text)`: the sorted canonical names of the skills found
      in the normalised text. `similar` stands for the fuzzy ratio reaching the
      threshold. */
  function ExtractSkillsFromText(text: string, table: seq<Skill>, similar: (string, string) -> bool): (names: seq<string>)
    ensures StrictlySorted(names) && Distinct(names)
    ensures forall n :: n in names ==> exists i :: 0 <= i < |table| && table[i].canonicalName == n
    ensures forall i :: 0 <= i < |table| && SkillFound(table[i], NormalizeText(text), similar) ==> table[i].canonicalName in names
    ensures forall n :: n in names ==> exists i :: 0 <= i < |table| && table[i].canonicalName == n && SkillFound(table[i], NormalizeText(text), similar)
  {
    var names := FoundNames(table, NormalizeText(text), similar);
    SortedDistinct(names);
    names
  }

  /** Exact containment is enough, whatever the similarity test says. */
  lemma SubstringAlwaysFound(text: string, table: seq<Skill>, similar: (string, string) -> bool, i: int, c: string)
    requires 0 <= i < |table|
    requires c == table[i].canonicalName || c in table[i].aliases
    requires Occurs(Strip(c), NormalizeText(text))
    ensures table[i].canonicalName in ExtractSkillsFromText(text, table, similar)
  {
    assert c in Candidates(table[i]);
  }

  /** Every name found with a table is found with any table holding its skills. */
  lemma FoundWithLargerTable(text: string, table: seq<Skill>, other: seq<Skill>, similar: (string, string) -> bool)
    requires forall s :: s in table ==> s in other
    ensures forall n :: n in ExtractSkillsFromText(text, table, similar) ==> n in ExtractSkillsFromText(text, other, similar)
  {
    var t := NormalizeText(text);
    forall n | n in ExtractSkillsFromText(text, table, similar) ensures n in ExtractSkillsFromText(text, other, similar) {
      var i :| 0 <= i < |table| && table[i].canonicalName == n && SkillFound(table[i], t, similar);
      assert table[i] in other;
      var j :| 0 <= j < |other| && other[j] == table[i];
    }
  }

  /** The answer is the one sorted listing of the found names: reordering the table
      changes nothing. */
  lemma ExtractSkillsTableOrderFree(text: string, table: seq<Skill>, other: seq<Skill>, similar: (string, string) -> bool)
    requires forall s :: s in table <==> s in other
    ensures ExtractSkillsFromText(text, table, similar) == ExtractSkillsFromText(text, other, similar)
  {
    var a := ExtractSkillsFromText(text, table, similar);
    var b := ExtractSkillsFromText(text, other, similar);
    FoundWithLargerTable(text, table, other, similar);
    FoundWithLargerTable(text, other, table, similar);
    assert ToSet(a) == ToSet(b);
    SortedUnique(a, b);
  }
}
