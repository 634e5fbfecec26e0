/** The stored skill record. */
module SkillModel {

  /** A canonical skill with its synonyms, category and where it was imported from. */
  datatype Skill = Skill(canonicalName: string, aliases: seq<string>, category: string, source: string)
}
