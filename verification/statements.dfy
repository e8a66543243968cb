/** The SQL text `write_content` sends: one CREATE TABLE per source and one
    INSERT per data row, values interpolated as they are stored. */
module Statements {
  import opened PyText
  import opened PyNumbers
  import opened TableSource

  /** The synthetic key column put in front of the header's columns. */
  const IdColumn: string := "id INTEGER PRIMARY KEY AUTOINCREMENT"

  /** `"%s %s" % (column_names[i], column_types[i])` for every header name. */
  function ColumnDefs(names: seq<string>, types: seq<ColumnType>): (r: seq<string>)
    requires |types| >= |names|
    ensures |r| == |names|
    ensures forall i :: 0 <= i < |r| ==> r[i] == names[i] + " " + types[i].Name()
  {
    seq(|names|, i requires 0 <= i < |names| => names[i] + " " + types[i].Name())
  }

  /** The CREATE TABLE statement of a table source. */
  function CreateStatement(name: string, names: seq<string>, types: seq<ColumnType>): string
    requires |types| >= |names|
  {
    "CREATE TABLE " + name + "(" + IdColumn + ", " + Join(", ", ColumnDefs(names, types)) + ");"
  }

  /** The text in front of the column definitions. */
  function CreateHead(name: string): string {
    "CREATE TABLE " + name + "("
  }

  /** The CREATE TABLE statement names the table, then lists, between the
      parentheses and separated by commas, the `id` key column followed by
      every header name with its type, in header order; nothing else. */
  lemma CreateSchema(name: string, names: seq<string>, types: seq<ColumnType>)
    requires |names| >= 1 && |types| >= |names|
    requires FreeOf(names, ',')
    ensures var stmt := CreateStatement(name, names, types);
      && |CreateHead(name)| + 2 <= |stmt|
      && stmt[..|CreateHead(name)|] == CreateHead(name)
      && stmt[|stmt| - 2..] == ");"
      && Split(stmt[|CreateHead(name)|..|stmt| - 2], ',')
         == [IdColumn] + Prefixed(" ", ColumnDefs(names, types))
  {
    var defs := ColumnDefs(names, types);
    var all := [IdColumn] + defs;
    var body := IdColumn + ", " + Join(", ", defs);
    JoinCons(", ", IdColumn, defs);
    DefsCommaFree(names, types);
    SplitCommaSpaceJoin(all);
    var stmt := CreateStatement(name, names, types);
    assert stmt == CreateHead(name) + body + ");";
    assert stmt[|CreateHead(name)|..|stmt| - 2] == body;
  }

  /** Neither the key column nor any column definition holds a comma when no
      header name does. */
  lemma DefsCommaFree(names: seq<string>, types: seq<ColumnType>)
    requires |types| >= |names|
    requires FreeOf(names, ',')
    ensures FreeOf([IdColumn] + ColumnDefs(names, types), ',')
  {
    var all := [IdColumn] + ColumnDefs(names, types);
    forall i | 0 <= i < |all| ensures ',' !in all[i] {
      if i > 0 {
        var t := types[i - 1];
        assert ',' !in t.Name();
        assert all[i] == names[i - 1] + " " + t.Name();
      }
    }
  }

  /** `make_insert_string`: every field of the row, in order, joined by
      `", "`. */
  function InsertValues(row: seq<string>): string {
    Join(", ", row)
  }

  /** The INSERT statement for data row `i` of table `name`. */
  function InsertStatement(name: string, i: nat, row: seq<string>): string {
    "INSERT INTO " + name + " VALUES(" + NatToString(i) + ", " + InsertValues(row) + ")"
  }

  /** The text in front of the values. */
  function InsertHead(name: string): string {
    "INSERT INTO " + name + " VALUES("
  }

  /** The INSERT statement for row `i` names the table and lists, between the
      parentheses and separated by commas, the decimal text of `i` and then
      every field of the row in order, all of them, each after one space. The
      first value reads back as `i`. */
  lemma InsertRecoverable(name: string, i: nat, row: seq<string>)
    requires |row| >= 1 && FreeOf(row, ',')
    ensures var stmt := InsertStatement(name, i, row);
      && |InsertHead(name)| + 1 <= |stmt|
      && stmt[..|InsertHead(name)|] == InsertHead(name)
      && stmt[|stmt| - 1] == ')'
      && var values := Split(stmt[|InsertHead(name)|..|stmt| - 1], ',');
         && values == [NatToString(i)] + Prefixed(" ", row)
         && AllDigits(values[0]) && DigitsValue(values[0]) == i
  {
    var all := [NatToString(i)] + row;
    var body := NatToString(i) + ", " + InsertValues(row);
    JoinCons(", ", NatToString(i), row);
    forall k | 0 <= k < |all| ensures ',' !in all[k] {
      if k == 0 {
        assert AllDigits(all[0]);
      }
    }
    SplitCommaSpaceJoin(all);
    var stmt := InsertStatement(name, i, row);
    assert stmt == InsertHead(name) + body + ")";
    assert stmt[|InsertHead(name)|..|stmt| - 1] == body;
  }
}
