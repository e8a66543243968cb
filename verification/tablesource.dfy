/** One CSV file turned into a table: its name, its header, and its data rows
    with every column typed as a whole and every CHAR cell turned into an SQL
    string literal (class `CSV`, `is_col_int` and `is_col_flt`). */
module TableSource {
  import opened PyText
  import opened PyNumbers
  import opened SqlQuote

  /** The SQLite type names the loader writes into CREATE TABLE. */
  datatype ColumnType = INTEGER | REAL | CHAR {
    function Name(): string {
      match this
      case INTEGER => "INTEGER"
      case REAL => "REAL"
      case CHAR => "CHAR"
    }
  }

  /** The exceptions that escape construction: `list.pop(0)` on a file without
      lines, and `row[j]` on a data row with `j` or fewer fields. Rows are
      counted from 0 after the header. */
  datatype CsvError = EmptyFile | RowTooShort(row: nat, column: nat)

  datatype Result<T> = Ok(value: T) | Err(error: CsvError)

  /** A constructed `CSV` object. */
  datatype Csv = Csv(
    path: string,
    name: string,
    columnNames: seq<string>,
    columnTypes: seq<ColumnType>,
    content: seq<seq<string>>)

  /** Header and data rows as read from the file, before typing. */
  datatype Parsed = Parsed(columnNames: seq<string>, content: seq<seq<string>>)

  /** Column types and the rewritten data rows. */
  datatype Typed = Typed(columnTypes: seq<ColumnType>, content: seq<seq<string>>)

  // ---------------------------------------------------------------- name

  /** `path[path.rfind("\\") + 1:path.rfind(".csv")]` */
  function TableName(path: string): string {
    Slice(path, RFind(path, "\\") + 1, RFind(path, ".csv"))
  }

  /** Inside a folder, the table is named by the file name without `.csv`. */
  lemma TableNameInFolder(folder: string, base: string)
    requires '\\' !in base
    ensures TableName(folder + "\\" + base + ".csv") == base
  {
    var path := folder + "\\" + base + ".csv";
    var b := |folder|;
    var c := |folder| + 1 + |base|;
    assert OccursAt(path, "\\", b) by {
      assert path[b..b + 1] == "\\";
    }
    forall k | b < k ensures !OccursAt(path, "\\", k) {
      if k + 1 <= |path| {
        assert path[k..k + 1] == [path[k]];
      }
    }
    assert RFind(path, "\\") == b;
    assert OccursAt(path, ".csv", c) by {
      assert path[c..c + 4] == ".csv";
    }
    assert RFind(path, ".csv") == c;
    assert path[b + 1..c] == base;
  }

  /** Without any folder, the table is named by the path without `.csv`. */
  lemma TableNameOfBareFile(base: string)
    requires '\\' !in base
    ensures TableName(base + ".csv") == base
  {
    var path := base + ".csv";
    var c := |base|;
    forall k | -1 < k ensures !OccursAt(path, "\\", k) {
      if k + 1 <= |path| {
        assert path[k..k + 1] == [path[k]];
      }
    }
    assert RFind(path, "\\") == -1;
    assert OccursAt(path, ".csv", c) by {
      assert path[c..c + 4] == ".csv";
    }
    assert RFind(path, ".csv") == c;
    assert path[0..c] == base;
  }

  /** When `.csv` does not occur, `rfind` gives -1 and the slice stops one
      character before the end: the name loses the path's last character. */
  lemma TableNameWithoutExtension(path: string)
    requires |path| >= 1
    requires '\\' !in path
    requires forall k :: !OccursAt(path, ".csv", k)
    ensures TableName(path) == path[..|path| - 1]
  {
    forall k | -1 < k ensures !OccursAt(path, "\\", k) {
      if k + 1 <= |path| {
        assert path[k..k + 1] == [path[k]];
      }
    }
    assert RFind(path, "\\") == -1;
    assert RFind(path, ".csv") == -1;
  }

  // ---------------------------------------------------------------- reading

  /** `line.strip().split(",")` */
  function SplitLine(line: string): (r: seq<string>)
    ensures |r| >= 1 && FreeOf(r, ',')
  {
    Split(Strip(line), ',')
  }

  /** Every line after the first, split. */
  function DataRows(lines: seq<string>): (r: seq<seq<string>>)
    requires |lines| >= 1
    ensures |r| == |lines| - 1
    ensures forall i :: 0 <= i < |r| ==> r[i] == SplitLine(lines[i + 1])
  {
    seq(|lines| - 1, i requires 0 <= i < |lines| - 1 => SplitLine(lines[i + 1]))
  }

  /** `read_contents` up to the type inference, given the lines `readlines()`
      returned: the first line is the header, the rest are data rows. */
  function ReadContents(lines: seq<string>): (r: Result<Parsed>)
    ensures r.Err? <==> |lines| == 0
    ensures r.Err? ==> r.error == EmptyFile
    ensures r.Ok? ==>
      && r.value.columnNames == SplitLine(lines[0])
      && r.value.content == DataRows(lines)
      && NoCommas(r.value.columnNames, r.value.content)
  {
    if |lines| == 0 then Err(EmptyFile)
    else Ok(Parsed(SplitLine(lines[0]), DataRows(lines)))
  }

  /** Nothing of a line but its surrounding whitespace is lost: joining the
      header names, or the fields of data row `i`, with `,` gives back the
      stripped line, and there is one field more than the line has commas. */
  lemma ReadContentsLossless(lines: seq<string>)
    requires |lines| >= 1
    ensures var p := ReadContents(lines).value;
      && Join(",", p.columnNames) == Strip(lines[0])
      && |p.columnNames| == Count(Strip(lines[0]), ',') + 1
      && |p.content| == |lines| - 1
      && forall i :: 0 <= i < |p.content| ==>
           && Join(",", p.content[i]) == Strip(lines[i + 1])
           && |p.content[i]| == Count(Strip(lines[i + 1]), ',') + 1
  {
    var p := ReadContents(lines).value;
    JoinSplit(Strip(lines[0]), ',');
    SplitCount(Strip(lines[0]), ',');
    forall i | 0 <= i < |p.content|
      ensures Join(",", p.content[i]) == Strip(lines[i + 1])
      ensures |p.content[i]| == Count(Strip(lines[i + 1]), ',') + 1
    {
      JoinSplit(Strip(lines[i + 1]), ',');
      SplitCount(Strip(lines[i + 1]), ',');
    }
  }

  /** No header name and no cell contains a comma. */
  predicate NoCommas(names: seq<string>, rows: seq<seq<string>>) {
    && FreeOf(names, ',')
    && forall i :: 0 <= i < |rows| ==> FreeOf(rows[i], ',')
  }

  // ---------------------------------------------------------------- typing

  /** Every row has at least `n` fields. */
  predicate Covers(rows: seq<seq<string>>, n: nat) {
    forall i :: 0 <= i < |rows| ==> n <= |rows[i]|
  }

  /** Every row has field `j` and `parses` accepts every field `j`. */
  predicate ColumnParses(rows: seq<seq<string>>, j: nat, parses: string -> bool) {
    forall i :: 0 <= i < |rows| ==> j < |rows[i]| && parses(rows[i][j])
  }

  /** The whole-column type: INTEGER when every cell is an int, else REAL when
      every cell is a float, else CHAR. */
  function Classify(rows: seq<seq<string>>, j: nat): ColumnType {
    if ColumnParses(rows, j, IsIntLiteral) then INTEGER
    else if ColumnParses(rows, j, IsFloatLiteral) then REAL
    else CHAR
  }

  /** How a cell of a column of type `t` is stored: quoted when CHAR, its
      own text otherwise. */
  function Format(cell: string, t: ColumnType): string {
    if t == CHAR then Quote(cell) else cell
  }

  /** How the loop of `is_col_int` / `is_col_flt` ends: it returns True, it
      returns False at the first cell that does not parse, or `row[j]` raises
      IndexError at a row that is too short. */
  datatype ColumnCheck = AllParse | Unparsable(row: nat) | IndexError(row: nat)

  /** The loop `is_col_int` (with `parses` = `IsIntLiteral`) and `is_col_flt`
      (with `parses` = `IsFloatLiteral`) share: rows are visited in order and
      the first row that is too short or does not parse ends the visit. */
  function CheckColumn(rows: seq<seq<string>>, j: nat, parses: string -> bool): (r: ColumnCheck)
    ensures r.AllParse? <==> ColumnParses(rows, j, parses)
    ensures r.Unparsable? ==>
      && r.row < |rows| && j < |rows[r.row]| && !parses(rows[r.row][j])
      && forall i :: 0 <= i < r.row ==> j < |rows[i]| && parses(rows[i][j])
    ensures r.IndexError? ==>
      && r.row < |rows| && |rows[r.row]| <= j
      && forall i :: 0 <= i < r.row ==> j < |rows[i]| && parses(rows[i][j])
    decreases |rows|
  {
    if |rows| == 0 then AllParse
    else if j >= |rows[0]| then IndexError(0)
    else if !parses(rows[0][j]) then Unparsable(0)
    else
      match CheckColumn(rows[1..], j, parses)
      case AllParse => AllParse
      case Unparsable(i) => Unparsable(i + 1)
      case IndexError(i) => IndexError(i + 1)
  }

  /** The quoting loop of `infer_types` on column `j`: every cell of the column is
      replaced by its literal, and a row without field `j` raises IndexError. */
  function QuoteColumn(rows: seq<seq<string>>, j: nat): (r: Result<seq<seq<string>>>)
    ensures r.Ok? <==> Covers(rows, j + 1)
    ensures r.Ok? ==>
      && |r.value| == |rows|
      && forall i :: 0 <= i < |rows| ==> r.value[i] == rows[i][j := Quote(rows[i][j])]
    ensures r.Err? ==>
      && r.error.RowTooShort? && r.error.column == j
      && r.error.row < |rows| && |rows[r.error.row]| <= j
      && forall i :: 0 <= i < r.error.row ==> j < |rows[i]|
    decreases |rows|
  {
    if |rows| == 0 then Ok([])
    else if j >= |rows[0]| then Err(RowTooShort(0, j))
    else
      match QuoteColumn(rows[1..], j)
      case Ok(rest) => Ok([rows[0][j := Quote(rows[0][j])]] + rest)
      case Err(e) => Err(RowTooShort(e.row + 1, j))
  }

  /** One round of the loop of `infer_types` for column `j`: classify the
      column, and quote its cells when it is CHAR. */
  function InferColumn(rows: seq<seq<string>>, j: nat): (r: Result<(ColumnType, seq<seq<string>>)>)
    ensures r.Ok? <==> Covers(rows, j + 1)
    ensures r.Ok? ==>
      && r.value.0 == Classify(rows, j)
      && |r.value.1| == |rows|
      && forall i :: 0 <= i < |rows| ==> r.value.1[i] == rows[i][j := Format(rows[i][j], r.value.0)]
    ensures r.Err? ==>
      && r.error.RowTooShort? && r.error.column == j
      && r.error.row < |rows| && |rows[r.error.row]| <= j
      && forall i :: 0 <= i < r.error.row ==> j < |rows[i]|
  {
    match CheckColumn(rows, j, IsIntLiteral)
    case AllParse =>
      assert forall i :: 0 <= i < |rows| ==> rows[i][j := rows[i][j]] == rows[i];
      Ok((INTEGER, rows))
    case IndexError(i) => Err(RowTooShort(i, j))
    case Unparsable(_) =>
      match CheckColumn(rows, j, IsFloatLiteral)
      case AllParse =>
        assert forall i :: 0 <= i < |rows| ==> rows[i][j := rows[i][j]] == rows[i];
        Ok((REAL, rows))
      case IndexError(i) => Err(RowTooShort(i, j))
      case Unparsable(_) =>
        match QuoteColumn(rows, j)
        case Ok(quoted) => Ok((CHAR, quoted))
        case Err(e) => Err(e)
  }

  /** The whole-column type, cell by cell: INTEGER exactly when every cell
      is an int; REAL exactly when some cell is not an int but every cell is
      a float; CHAR exactly when some cell is not even a float. */
  lemma ClassifyCases(rows: seq<seq<string>>, j: nat)
    requires Covers(rows, j + 1)
    ensures Classify(rows, j) == INTEGER <==>
      forall i :: 0 <= i < |rows| ==> IsIntLiteral(rows[i][j])
    ensures Classify(rows, j) == REAL <==>
      && (exists i :: 0 <= i < |rows| && !IsIntLiteral(rows[i][j]))
      && (forall i :: 0 <= i < |rows| ==> IsFloatLiteral(rows[i][j]))
    ensures Classify(rows, j) == CHAR <==>
      exists i :: 0 <= i < |rows| && !IsFloatLiteral(rows[i][j])
  {
    if Classify(rows, j) == CHAR {
      assert !ColumnParses(rows, j, IsFloatLiteral);
    } else {
      forall i | 0 <= i < |rows| ensures IsFloatLiteral(rows[i][j]) {
        if Classify(rows, j) == INTEGER {
          IntIsFloat(rows[i][j]);
        }
      }
    }
  }

  /** One cell that is not a number in an otherwise all-int column makes the
      column CHAR, not REAL. */
  lemma OneTextCellMakesChar(rows: seq<seq<string>>, j: nat, m: nat)
    requires Covers(rows, j + 1)
    requires m < |rows|
    requires forall i :: 0 <= i < |rows| && i != m ==> IsIntLiteral(rows[i][j])
    requires !IsIntLiteral(rows[m][j]) && !IsFloatLiteral(rows[m][j])
    ensures Classify(rows, j) == CHAR
  {
    ClassifyCases(rows, j);
  }

  /** One float that is not an int in an otherwise all-int column makes the
      column REAL. */
  lemma OneFloatCellMakesReal(rows: seq<seq<string>>, j: nat, m: nat)
    requires Covers(rows, j + 1)
    requires m < |rows|
    requires forall i :: 0 <= i < |rows| && i != m ==> IsIntLiteral(rows[i][j])
    requires !IsIntLiteral(rows[m][j]) && IsFloatLiteral(rows[m][j])
    ensures Classify(rows, j) == REAL
  {
    forall i | 0 <= i < |rows| && i != m ensures IsFloatLiteral(rows[i][j]) {
      IntIsFloat(rows[i][j]);
    }
    ClassifyCases(rows, j);
  }

  /** A file with a header and no data rows: both loops return True at once,
      so every column is INTEGER. */
  lemma NoRowsAllInteger(n: nat)
    ensures InferTypes([], n).Ok?
    ensures forall k :: 0 <= k < n ==> InferTypes([], n).value.columnTypes[k] == INTEGER
  {
    forall k | 0 <= k < n ensures Classify([], k) == INTEGER {
      assert ColumnParses([], k, IsIntLiteral);
    }
  }

  /** The error is the one `row[j]` raises first: at the narrowest width of
      any row, in the first row of that width. */
  predicate FirstShortRow(rows: seq<seq<string>>, e: CsvError) {
    && e.RowTooShort?
    && e.row < |rows|
    && |rows[e.row]| == e.column
    && (forall i :: 0 <= i < |rows| ==> e.column <= |rows[i]|)
    && (forall i :: 0 <= i < e.row ==> e.column < |rows[i]|)
  }

  /** `types` are the whole-column types of columns `j`, `j + 1`, ... */
  predicate TypedFrom(rows: seq<seq<string>>, types: seq<ColumnType>, j: nat) {
    forall k :: j <= k < j + |types| ==> types[k - j] == Classify(rows, k)
  }

  /** What cell `k` of a row holds once columns `j` to `j + |types| - 1` have
      been given `types`. */
  function Stored(cell: string, k: nat, types: seq<ColumnType>, j: nat): string {
    if j <= k < j + |types| then Format(cell, types[k - j]) else cell
  }

  /** `out` is `rows` with the cells of columns `j` to `j + |types| - 1`
      formatted for their types and every other cell untouched. */
  predicate Reformatted(rows: seq<seq<string>>, out: seq<seq<string>>, types: seq<ColumnType>, j: nat) {
    && |out| == |rows|
    && (forall i :: 0 <= i < |rows| ==> |out[i]| == |rows[i]|)
    && (forall i, k :: 0 <= i < |rows| && 0 <= k < |rows[i]| ==> out[i][k] == Stored(rows[i][k], k, types, j))
  }

  /** Rewriting other columns leaves the classification of column `k` as it
      was. */
  lemma ColumnFrame(rows: seq<seq<string>>, rows': seq<seq<string>>, k: nat)
    requires |rows'| == |rows|
    requires forall i :: 0 <= i < |rows| ==> |rows'[i]| == |rows[i]|
    requires forall i :: 0 <= i < |rows| && k < |rows[i]| ==> rows'[i][k] == rows[i][k]
    ensures Classify(rows', k) == Classify(rows, k)
  {
    assert ColumnParses(rows', k, IsIntLiteral) == ColumnParses(rows, k, IsIntLiteral);
    assert ColumnParses(rows', k, IsFloatLiteral) == ColumnParses(rows, k, IsFloatLiteral);
  }

  /** Rewriting column `j` changes the classification of no later column. */
  lemma ColumnsFrame(rows: seq<seq<string>>, rows': seq<seq<string>>, j: nat)
    requires |rows'| == |rows|
    requires forall i :: 0 <= i < |rows| ==> |rows'[i]| == |rows[i]|
    requires forall i, k :: 0 <= i < |rows| && j < k < |rows[i]| ==> rows'[i][k] == rows[i][k]
    ensures forall k :: j < k ==> Classify(rows', k) == Classify(rows, k)
  {
    forall k | j < k ensures Classify(rows', k) == Classify(rows, k) {
      ColumnFrame(rows, rows', k);
    }
  }

  /** Typing column `j` and then the columns after it types the columns from
      `j` on, when the rows the later columns are typed in classify those
      columns as the original rows do. */
  lemma InferStepTypes(rows: seq<seq<string>>, rows': seq<seq<string>>, j: nat, t: ColumnType, types: seq<ColumnType>)
    requires t == Classify(rows, j)
    requires forall k :: j < k ==> Classify(rows', k) == Classify(rows, k)
    requires TypedFrom(rows', types, j + 1)
    ensures TypedFrom(rows, [t] + types, j)
  {
    var all := [t] + types;
    forall k | j <= k < j + |all| ensures all[k - j] == Classify(rows, k) {
      if k == j {
        assert all[0] == t;
      } else {
        assert all[k - j] == types[k - (j + 1)];
        assert types[k - (j + 1)] == Classify(rows', k);
        assert Classify(rows', k) == Classify(rows, k);
      }
    }
  }

  /** Formatting column `j` and then the columns after it formats the columns
      from `j` on. */
  lemma InferStepCells(rows: seq<seq<string>>, rows': seq<seq<string>>, j: nat, t: ColumnType, types: seq<ColumnType>, out: seq<seq<string>>)
    requires Covers(rows, j + 1)
    requires |rows'| == |rows|
    requires forall i :: 0 <= i < |rows| ==> rows'[i] == rows[i][j := Format(rows[i][j], t)]
    requires Reformatted(rows', out, types, j + 1)
    ensures Reformatted(rows, out, [t] + types, j)
  {
    var all := [t] + types;
    forall i, k | 0 <= i < |rows| && 0 <= k < |rows[i]|
      ensures out[i][k] == Stored(rows[i][k], k, all, j)
    {
      assert out[i][k] == Stored(rows'[i][k], k, types, j + 1);
      if k == j {
        assert rows'[i][k] == Format(rows[i][j], t);
      } else {
        assert rows'[i][k] == rows[i][k];
        if j < k < j + |all| {
          assert all[k - j] == types[k - (j + 1)];
        }
      }
    }
  }

  /** Formatting column `j` changes the width of no row, so the rows cover
      the same widths and fail at the same short row. */
  lemma SameWidths(rows: seq<seq<string>>, rows': seq<seq<string>>, j: nat, t: ColumnType)
    requires Covers(rows, j + 1)
    requires |rows'| == |rows|
    requires forall i :: 0 <= i < |rows| ==> rows'[i] == rows[i][j := Format(rows[i][j], t)]
    ensures forall i :: 0 <= i < |rows| ==> |rows'[i]| == |rows[i]|
    ensures forall n: nat :: Covers(rows', n) <==> Covers(rows, n)
    ensures forall e :: FirstShortRow(rows', e) <==> FirstShortRow(rows, e)
  {
  }

  /** One round of the loop of `infer_types` followed by the later rounds
      types and formats the columns from `j` on. */
  lemma InferStep(rows: seq<seq<string>>, rows': seq<seq<string>>, j: nat, t: ColumnType, done: Typed)
    requires Covers(rows, j + 1)
    requires t == Classify(rows, j)
    requires |rows'| == |rows|
    requires forall i :: 0 <= i < |rows| ==> rows'[i] == rows[i][j := Format(rows[i][j], t)]
    requires TypedFrom(rows', done.columnTypes, j + 1)
    requires Reformatted(rows', done.content, done.columnTypes, j + 1)
    ensures TypedFrom(rows, [t] + done.columnTypes, j)
    ensures Reformatted(rows, done.content, [t] + done.columnTypes, j)
  {
    ColumnsFrame(rows, rows', j);
    InferStepTypes(rows, rows', j, t, done.columnTypes);
    InferStepCells(rows, rows', j, t, done.columnTypes, done.content);
  }

  /** The loop of `infer_types` from column `j` on, over rows whose columns
      before `j` are already done. */
  function InferFrom(rows: seq<seq<string>>, n: nat, j: nat): (r: Result<Typed>)
    requires j <= n
    requires Covers(rows, j)
    ensures r.Ok? <==> Covers(rows, n)
    ensures r.Ok? ==>
      && |r.value.columnTypes| == n - j
      && TypedFrom(rows, r.value.columnTypes, j)
      && Reformatted(rows, r.value.content, r.value.columnTypes, j)
    ensures r.Err? ==> FirstShortRow(rows, r.error) && r.error.column < n
    decreases n - j
  {
    if j == n then
      Ok(Typed([], rows))
    else
      match InferColumn(rows, j)
      case Err(e) => Err(e)
      case Ok((t, rows')) =>
        SameWidths(rows, rows', j, t);
        match InferFrom(rows', n, j + 1)
        case Err(e) => Err(e)
        case Ok(done) =>
          InferStep(rows, rows', j, t, done);
          Ok(Typed([t] + done.columnTypes, done.content))
  }

  /** What `infer_types` leaves for a header of `n` names: column `k` has its
      whole-column type, every row keeps its width, the cells of the header's
      columns are formatted for their type (each once), and the cells beyond
      the header stay as read. */
  predicate Inferred(rows: seq<seq<string>>, n: nat, t: Typed) {
    && |t.columnTypes| == n
    && (forall k :: 0 <= k < n ==> t.columnTypes[k] == Classify(rows, k))
    && |t.content| == |rows|
    && (forall i :: 0 <= i < |rows| ==> |t.content[i]| == |rows[i]|)
    && (forall i, k :: 0 <= i < |rows| && 0 <= k < |rows[i]| ==>
          t.content[i][k] == if k < n then Format(rows[i][k], t.columnTypes[k]) else rows[i][k])
  }

  /** `infer_types` on the data rows, for a header of `n` names. Succeeds
      exactly when no data row is narrower than the header; then column `k`
      gets its whole-column type, and the cells of the header's columns are
      stored formatted for their type (each once) while the cells beyond the
      header stay as read. Otherwise the IndexError is raised at the first row
      of the narrowest width. */
  function InferTypes(rows: seq<seq<string>>, n: nat): (r: Result<Typed>)
    ensures r.Ok? <==> Covers(rows, n)
    ensures r.Ok? ==> Inferred(rows, n, r.value)
    ensures r.Err? ==> FirstShortRow(rows, r.error) && r.error.column < n
  {
    var r := InferFrom(rows, n, 0);
    if r.Ok? then
      assert TypedFrom(rows, r.value.columnTypes, 0);
      assert forall k :: 0 <= k < n ==> r.value.columnTypes[k] == Classify(rows, k);
      assert forall i, k :: 0 <= i < |rows| && 0 <= k < |rows[i]| ==>
        r.value.content[i][k] == Stored(rows[i][k], k, r.value.columnTypes, 0);
      r
    else r
  }

  // ---------------------------------------------------------------- the object

  /** What a constructed table source keeps true: one type per header name,
      every data row at least as wide as the header, no comma in any name or
      cell, and every cell of a CHAR column a well-formed literal. */
  predicate WellFormed(src: Csv) {
    && |src.columnNames| >= 1
    && |src.columnTypes| == |src.columnNames|
    && Covers(src.content, |src.columnNames|)
    && NoCommas(src.columnNames, src.content)
    && forall i, k :: 0 <= i < |src.content| && 0 <= k < |src.columnNames| && src.columnTypes[k] == CHAR ==>
         Unquote(src.content[i][k]).Some?
  }

  /** `CSV(path)`, with the file's lines given instead of read. */
  function NewCsv(path: string, lines: seq<string>): (r: Result<Csv>)
    ensures |lines| == 0 ==> r == Err(EmptyFile)
    ensures |lines| > 0 ==> (r.Ok? <==> Covers(DataRows(lines), |SplitLine(lines[0])|))
    ensures |lines| > 0 && r.Err? ==> FirstShortRow(DataRows(lines), r.error)
    ensures r.Ok? ==>
      && WellFormed(r.value)
      && r.value.path == path
      && r.value.name == TableName(path)
      && r.value.columnNames == SplitLine(lines[0])
      && Inferred(DataRows(lines), |r.value.columnNames|, Typed(r.value.columnTypes, r.value.content))
  {
    match ReadContents(lines)
    case Err(e) => Err(e)
    case Ok(raw) =>
      match InferTypes(raw.content, |raw.columnNames|)
      case Err(e) => Err(e)
      case Ok(typed) =>
        var src := Csv(path, TableName(path), raw.columnNames, typed.columnTypes, typed.content);
        StoredWellFormed(raw, typed);
        Ok(src)
  }

  /** The rows `infer_types` leaves behind keep the table source well formed. */
  lemma StoredWellFormed(raw: Parsed, typed: Typed)
    requires |raw.columnNames| >= 1
    requires NoCommas(raw.columnNames, raw.content)
    requires Covers(raw.content, |raw.columnNames|)
    requires |typed.columnTypes| == |raw.columnNames|
    requires Reformatted(raw.content, typed.content, typed.columnTypes, 0)
    ensures WellFormed(Csv([], [], raw.columnNames, typed.columnTypes, typed.content))
  {
    var rows := raw.content;
    var out := typed.content;
    forall i | 0 <= i < |out| ensures FreeOf(out[i], ',') {
      forall k | 0 <= k < |out[i]| ensures ',' !in out[i][k] {
        assert out[i][k] == Stored(rows[i][k], k, typed.columnTypes, 0);
        assert ',' !in rows[i][k];
        QuoteAddsOnlyQuotes(rows[i][k], ',');
      }
    }
    forall i, k | 0 <= i < |out| && 0 <= k < |raw.columnNames| && typed.columnTypes[k] == CHAR
      ensures Unquote(out[i][k]).Some?
    {
      assert out[i][k] == Quote(rows[i][k]);
      QuoteRoundTrip(rows[i][k]);
    }
  }
}
