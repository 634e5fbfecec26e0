/** The CSV skill import: alias parsing and the get-or-create, fill-aliases-if-empty
    rule, as a fold of rows into a table keyed by canonical name. */
module SkillImport {
  import opened Strings
  import opened Collections
  import opened SkillModel

  /** One CSV row. A column the file lacks is `None`. */
  datatype Row = Row(skill: string, aliases: Option<string>, category: Option<string>)

  const AliasSeparator: char := '|'
  const DefaultCategory: string := "General"

  /** Skills by canonical name. */
  type SkillTable = map<string, Skill>

  predicate HasText(a: string) {
    |Strip(a)| > 0
  }

  function CleanAlias(a: string): string {
    Lower(Strip(a))
  }

  /** The shape of a parsed alias: non-empty, stripped, lower-case, no separator. */
  predicate IsCleanAlias(a: string) {
    |a| > 0 && IsStripped(a) && IsLowerText(a) && Avoids(a, {AliasSeparator})
  }

  /** `[a.strip().lower() for a in raw.split("|") if a.strip()]`: one alias per
      '|'-separated piece that is not blank, stripped and lower-cased. */
  function ParseAliases(raw: string): (aliases: seq<string>)
    ensures forall k :: 0 <= k < |aliases| ==> IsCleanAlias(aliases[k])
    ensures |aliases| == CountWhere(SplitOn(raw, {AliasSeparator}), HasText)
    ensures forall x :: x in aliases <==>
      exists p :: p in SplitOn(raw, {AliasSeparator}) && HasText(p) && x == CleanAlias(p)
  {
    var pieces := SplitOn(raw, {AliasSeparator});
    var kept := Filter(pieces, HasText);
    var aliases := Map(kept, CleanAlias);
    SplitOnSpec(raw, {AliasSeparator});
    SubsequenceMembers(kept, pieces);
    MapFilterMembers(pieces, HasText, CleanAlias);
    forall k | 0 <= k < |aliases| ensures IsCleanAlias(aliases[k]) {
      CleanAliasShape(kept[k]);
    }
    aliases
  }

  lemma CleanAliasShape(a: string)
    requires HasText(a) && Avoids(a, {AliasSeparator})
    ensures IsCleanAlias(CleanAlias(a))
  {
    var s := Strip(a);
    StripSpec(a);
    StripChars(a);
    LowerIsLower(s);
    forall k | 0 <= k < |s| ensures s[k] != AliasSeparator {
      assert s[k] in a;
    }
  }

  /** No text, no aliases. */
  lemma ParseNothing()
    ensures ParseAliases("") == []
  {
    assert SplitOn("", {AliasSeparator}) == [""];
  }

  /** Clean aliases survive the filter and the clean-up untouched. */
  lemma CleanAliasesKept(aliases: seq<string>)
    requires forall k :: 0 <= k < |aliases| ==> IsCleanAlias(aliases[k])
    ensures Map(Filter(aliases, HasText), CleanAlias) == aliases
  {
    forall k | 0 <= k < |aliases| ensures HasText(aliases[k]) && CleanAlias(aliases[k]) == aliases[k] {
      StripOfStripped(aliases[k]);
      LowerOfLowerText(aliases[k]);
    }
    FilterKeepsAll(aliases, HasText);
  }

  /** Writing clean aliases joined by '|' and parsing the text gives them back. */
  lemma {:induction false} ParseJoinedAliases(aliases: seq<string>)
    requires forall k :: 0 <= k < |aliases| ==> IsCleanAlias(aliases[k])
    ensures ParseAliases(Join(aliases, [AliasSeparator])) == aliases
  {
    if |aliases| == 0 {
      ParseNothing();
    } else {
      SplitOnJoin(aliases, AliasSeparator);
      CleanAliasesKept(aliases);
    }
  }

  /** A row as the import uses it: the record key, the parsed aliases and the
      category. */
  datatype Entry = Entry(key: string, aliases: seq<string>, category: string)

  /** `row.get("category", "General")`: the default only when the column is absent. */
  function RowCategory(row: Row): (c: string)
    ensures row.category.None? ==> c == DefaultCategory
    ensures row.category.Some? ==> c == row.category.value
  {
    match row.category
    case None => DefaultCategory
    case Some(c) => c
  }

  /** The key is the stripped, lower-cased skill column; the aliases come from
      `row.get("aliases", "")`. */
  function ParseRow(row: Row): (e: Entry)
    ensures e.key == Lower(Strip(row.skill))
    ensures IsStripped(e.key) && IsLowerText(e.key)
    ensures |e.key| == |Strip(row.skill)|
    ensures row.aliases.Some? ==> e.aliases == ParseAliases(row.aliases.value)
    ensures forall k :: 0 <= k < |e.aliases| ==> IsCleanAlias(e.aliases[k])
    ensures row.aliases.None? ==> e.aliases == []
    ensures e.category == RowCategory(row)
  {
    KeyShape(row.skill);
    ParseNothing();
    var raw := match row.aliases case None => "" case Some(a) => a;
    Entry(Lower(Strip(row.skill)), ParseAliases(raw), RowCategory(row))
  }

  /** Lower-casing keeps a stripped string stripped. */
  lemma KeyShape(s: string)
    ensures IsStripped(Lower(Strip(s))) && IsLowerText(Lower(Strip(s)))
  {
    var t := Strip(s);
    StripSpec(s);
    LowerIsLower(t);
    if |t| > 0 {
      assert Lower(t)[0] == LowerChar(t[0]) && Lower(t)[|t| - 1] == LowerChar(t[|t| - 1]);
    }
  }

  /** Every record is stored under its own canonical name. */
  predicate WellKeyed(table: SkillTable) {
    forall k :: k in table ==> table[k].canonicalName == k
  }

  datatype StepResult = StepResult(table: SkillTable, created: bool)

  /** One row: create the record when the key is new; otherwise fill its aliases
      only if it has none, and leave everything else alone. */
  function ImportEntry(table: SkillTable, e: Entry, source: string): (r: StepResult)
    ensures r.table.Keys == table.Keys + {e.key}
    ensures r.created <==> e.key !in table
    ensures r.created ==> r.table[e.key] == Skill(e.key, e.aliases, e.category, source)
    ensures !r.created && |table[e.key].aliases| > 0 ==> r.table == table
    ensures !r.created && |table[e.key].aliases| == 0 ==> r.table[e.key] == table[e.key].(aliases := e.aliases)
    ensures forall k :: k in table && k != e.key ==> r.table[k] == table[k]
    ensures forall k :: k in table ==> r.table[k].category == table[k].category && r.table[k].source == table[k].source
    ensures forall k :: k in table ==> r.table[k].canonicalName == table[k].canonicalName
    ensures forall k :: k in table && |table[k].aliases| > 0 ==> r.table[k] == table[k]
    ensures WellKeyed(table) ==> WellKeyed(r.table)
  {
    if e.key !in table then
      StepResult(table[e.key := Skill(e.key, e.aliases, e.category, source)], true)
    else if |table[e.key].aliases| == 0 then
      StepResult(table[e.key := table[e.key].(aliases := e.aliases)], false)
    else
      StepResult(table, false)
  }

  /** The keys of a list of parsed rows. */
  function EntryKeys(es: seq<Entry>): (keys: set<string>)
    ensures forall k :: k in keys <==> exists i :: 0 <= i < |es| && es[i].key == k
  {
    if |es| == 0 then {}
    else
      var rest := EntryKeys(es[1..]);
      assert forall i :: 1 <= i < |es| ==> es[i] == es[1..][i - 1];
      {es[0].key} + rest
  }

  datatype ImportResult = ImportResult(table: SkillTable, created: nat, updated: nat)

  /** The parsed rows in file order, counting created and updated records. */
  function ImportEntries(table: SkillTable, es: seq<Entry>, source: string): (r: ImportResult)
    ensures r.created + r.updated == |es|
    ensures r.table.Keys == table.Keys + EntryKeys(es)
    ensures forall k :: k in table ==> r.table[k].category == table[k].category && r.table[k].source == table[k].source
    ensures forall k :: k in table && |table[k].aliases| > 0 ==> r.table[k] == table[k]
    ensures WellKeyed(table) ==> WellKeyed(r.table)
    decreases |es|
  {
    if |es| == 0 then ImportResult(table, 0, 0)
    else
      var step := ImportEntry(table, es[0], source);
      var rest := ImportEntries(step.table, es[1..], source);
      if step.created then ImportResult(rest.table, rest.created + 1, rest.updated)
      else ImportResult(rest.table, rest.created, rest.updated + 1)
  }

  /** `Command.handle`: every row of the file through the upsert rule. */
  function ImportRows(table: SkillTable, rows: seq<Row>, source: string): (r: ImportResult)
    ensures r.created + r.updated == |rows|
    ensures forall k :: k in r.table <==> k in table || exists i :: 0 <= i < |rows| && ParseRow(rows[i]).key == k
    ensures forall k :: k in table ==> r.table[k].category == table[k].category && r.table[k].source == table[k].source
    ensures forall k :: k in table && |table[k].aliases| > 0 ==> r.table[k] == table[k]
    ensures WellKeyed(table) ==> WellKeyed(r.table)
  {
    var es := Map(rows, ParseRow);
    ImportEntries(table, es, source)
  }

  /** After a row, its record exists, and has aliases unless the row had none. */
  predicate Settled(table: SkillTable, e: Entry) {
    e.key in table && (|table[e.key].aliases| == 0 ==> |e.aliases| == 0)
  }

  /** Later rows never undo a settled row. */
  lemma {:induction false} ImportKeepsSettled(table: SkillTable, es: seq<Entry>, source: string, e: Entry)
    requires Settled(table, e)
    ensures Settled(ImportEntries(table, es, source).table, e)
    decreases |es|
  {
    if |es| > 0 {
      var step := ImportEntry(table, es[0], source);
      assert Settled(step.table, e);
      ImportKeepsSettled(step.table, es[1..], source, e);
    }
  }

  /** An import settles each of its rows. */
  lemma {:induction false} ImportSettles(table: SkillTable, es: seq<Entry>, source: string, k: int)
    requires 0 <= k < |es|
    ensures Settled(ImportEntries(table, es, source).table, es[k])
    decreases |es|
  {
    if k == 0 {
      ImportSettlesFirst(table, es, source);
    } else {
      var step := ImportEntry(table, es[0], source);
      ImportSettles(step.table, es[1..], source, k - 1);
      ImportUnfold(table, es, source);
      assert es[1..][k - 1] == es[k];
    }
  }

  /** An import settles its first row. */
  lemma ImportSettlesFirst(table: SkillTable, es: seq<Entry>, source: string)
    requires |es| > 0
    ensures Settled(ImportEntries(table, es, source).table, es[0])
  {
    var step := ImportEntry(table, es[0], source);
    EntrySettles(table, es[0], source);
    ImportKeepsSettled(step.table, es[1..], source, es[0]);
    ImportUnfold(table, es, source);
  }

  /** An import's table is the rest of the rows imported after the first. */
  lemma ImportUnfold(table: SkillTable, es: seq<Entry>, source: string)
    requires |es| > 0
    ensures ImportEntries(table, es, source).table
      == ImportEntries(ImportEntry(table, es[0], source).table, es[1..], source).table
  {
  }

  /** A row settles itself. */
  lemma EntrySettles(table: SkillTable, e: Entry, source: string)
    ensures Settled(ImportEntry(table, e, source).table, e)
  {
  }

  /** Rows that are all settled change nothing and create nothing. */
  lemma {:induction false} SettledImportIsNoOp(table: SkillTable, es: seq<Entry>, source: string)
    requires forall k :: 0 <= k < |es| ==> Settled(table, es[k])
    ensures ImportEntries(table, es, source) == ImportResult(table, 0, |es|)
    decreases |es|
  {
    if |es| > 0 {
      var step := ImportEntry(table, es[0], source);
      assert step.table == table;
      forall k | 0 <= k < |es[1..]| ensures Settled(table, es[1..][k]) {
        assert es[1..][k] == es[k + 1];
      }
      SettledImportIsNoOp(table, es[1..], source);
    }
  }

  /** Importing the same file twice: the second run creates nothing and changes
      nothing. */
  lemma {:induction false} ReimportIsNoOp(table: SkillTable, rows: seq<Row>, source: string)
    ensures var once := ImportRows(table, rows, source).table;
      ImportRows(once, rows, source) == ImportResult(once, 0, |rows|)
  {
    var es := Map(rows, ParseRow);
    forall k | 0 <= k < |es| ensures Settled(ImportEntries(table, es, source).table, es[k]) {
      ImportSettles(table, es, source, k);
    }
    SettledImportIsNoOp(ImportEntries(table, es, source).table, es, source);
  }
}
