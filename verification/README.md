# csv-To-db in Dafny

A model of `csv_to_db.py`, a script that loads CSV files into an SQLite
database, one table per file. Each file becomes a table source (class `CSV`):

- Its table name is cut from the path.
- Its first line is split into the header and every further line into a data
  row.
- Each column gets one type for the whole column: INTEGER when `int()` accepts
  every cell, else REAL when `float()` accepts every cell, else CHAR. Every
  cell of a CHAR column becomes a single-quoted SQL literal with its quotes
  doubled.

`write_content` then asks the database for:

1. a `CREATE TABLE` with a synthetic `id` key column followed by the header's
   columns;
2. one `INSERT` per data row, carrying the row index and the row's fields;
3. a commit.

`write_db` does this for every source in turn.

The model is pure functions over immutable data:

- `pytext.dfy` (`PyText`) holds the Python string operations the script uses:
  `strip`, `split`, `join`, `rfind` and slicing.
- `pynumbers.dfy` (`PyNumbers`) holds the grammars of what `int()` and
  `float()` accept, with ASCII digits only, and the decimal text `%d`
  produces.
- `sqlquote.dfy` (`SqlQuote`) holds the quoting of CHAR cells and reading the
  literals back.
- `tablesource.dfy` (`TableSource`) holds the name, the reading, the type
  inference and the construction of a table source.
- `statements.dfy` (`Statements`) holds the CREATE TABLE and INSERT texts.
- `loader.dfy` (`Loader`) holds `read_csvs`, `write_content` and `write_db`.

The file system is replaced by parameters: a source is built from its path and
the list of lines `readlines()` would return. The database is replaced by a
function. It takes everything asked of the database so far and the next
action, an execution or a commit, and says whether that action succeeds,
raises `sqlite3.OperationalError`, or raises some other exception. Each loader
function returns the exact sequence of executions and commits the script
would ask for, with how the call ends.

Python exceptions become values:

- `EmptyFile` is `pop(0)` on a file without lines.
- `RowTooShort(row, column)` is the `IndexError` of `row[j]`.
- `WriteOutcome` records how `write_content` ends: it committed, it reported an
  OperationalError and returned, or an exception escaped from CREATE TABLE,
  from an INSERT or from the commit.

Where the script's behaviour is easy to misread, the model follows the code:

- The textual column type is `CHAR`, not TEXT.
- When an INSERT raises OperationalError, `write_content` returns before
  its commit. No rollback is ever asked for. In the sequence of actions the
  loader asks for, the INSERTs of that source therefore come before the next
  commit request, which the next source whose statements all succeed makes:
  `Loader.WriteDbInOrder` puts each source's actions after those of the
  sources before it, and `Loader.WriteContentStops` says an abandoned source
  asks for no commit while a source that asks for one asks for it last.
  What SQLite then keeps is not part of this model.
- `commit()` is outside the `try`, so an exception it raises leaves
  `write_content` and ends `write_db`, whatever its class.
- A data row with more fields than the header is kept whole. Only the
  header's columns are typed and quoted. Every field of the row goes into its
  INSERT.
- A data row with fewer fields than the header makes construction raise
  `IndexError`. This happens even when the short cell would never be
  classified: whether the column ends up INTEGER, REAL or CHAR, one of the
  three loops over the column visits every row. The error is raised at the
  first row of the smallest width.
- When the path does not contain `.csv`, `rfind` returns -1. The slice then
  stops one character before the end, so the name loses its last character
  (`TableSource.TableNameWithoutExtension`).

## Model

| member | source | states |
|---|---|---|
| PyText.Strip | csv_to_db.py:26 | `str.strip()`. Specified by `PyText.StripTrims` with the `str.isspace` characters. |
| PyText.StripTrims | csv_to_db.py:26 | Stripping a set of characters removes only characters of the set, and only from the two ends. It removes all of them: what remains is empty or neither starts nor ends with one. |
| PyText.Split | csv_to_db.py:26 | `split(",")` gives at least one piece, and no piece contains the separator. |
| PyText.SplitCount | csv_to_db.py:26 | There is exactly one piece more than the line has separators. |
| PyText.Join | csv_to_db.py:62 | `sep.join(xs)`. `PyText.JoinSplit` and `PyText.SplitJoin` make it the inverse of `split` on separator-free pieces. |
| PyText.JoinSplit | csv_to_db.py:26 | Splitting loses nothing: joining the pieces with the separator gives the line back. |
| PyText.SplitJoin | csv_to_db.py:26 | Splitting a join of separator-free pieces gives back exactly those pieces. |
| PyText.JoinCommaSpace | csv_to_db.py:87 | The `","`-join of pieces that each have a space in front is a space followed by the `", "`-join of the pieces. |
| PyText.SpacedJoin | csv_to_db.py:87 | A `", "`-join of pieces is the `","`-join of the first piece and the others, each with a space in front. |
| PyText.SplitCommaSpaceJoin | csv_to_db.py:87 | Splitting a `", "`-join of comma-free pieces on `,` gives the first piece and then every other piece with one space in front. |
| PyText.RFind | csv_to_db.py:18 | `rfind` returns -1 or a position where the pattern occurs, and the pattern occurs at no later position. |
| PyText.SliceBound | csv_to_db.py:18 | A negative bound counts from the end. The bound is then clamped to `[0, n]`: in-range bounds are kept, a bound past the end gives `n`, and one before the start gives 0. |
| PyText.Slice | csv_to_db.py:18 | A slice is never longer than the string. |
| PyNumbers.DropSign | csv_to_db.py:110 | A leading `+` or `-` is removed. Text without one is returned unchanged. |
| PyNumbers.IsIntLiteral | csv_to_db.py:110 | What `int()` accepts: the number whitespace trimmed, an optional sign, then digits with single underscores between digits. Its properties are stated by `PyNumbers.IntIsFloat`, `PyNumbers.BlankIsNotNumber` and `PyNumbers.SeparatorFirstIsNotNumber`. |
| PyNumbers.IsFloatLiteral | csv_to_db.py:124 | What `float()` accepts: the number whitespace trimmed, an optional sign, then `inf`, `infinity` or `nan` in any case, or a decimal mantissa with an optional exponent. Its properties are stated by the same three lemmas. |
| PyNumbers.IntIsFloat | csv_to_db.py:41-44 | Every cell `int()` accepts, `float()` accepts too. So a column is REAL only when some cell is a float but not an int. |
| PyNumbers.BlankIsNotNumber | csv_to_db.py:110-124 | An empty cell, or one made only of `str.isspace` characters, is accepted by neither `int()` nor `float()`. |
| PyNumbers.SpaceFirstIsNotNumber | csv_to_db.py:110-124 | Text that starts with whitespace after the trimming is neither an int nor a float. |
| PyNumbers.SeparatorFirstIsNotNumber | csv_to_db.py:110-124 | A cell that starts with an information separator (U+001C to U+001F) is neither an int nor a float. `str.strip()` removes these characters, but `int()` and `float()` do not skip them. |
| PyNumbers.NatToString | csv_to_db.py:67 | `%d` of a row index gives decimal digits without a leading zero that denote the index. |
| PyNumbers.NatToStringIsInt | csv_to_db.py:67 | The text of a row index is itself an integer literal. |
| PyNumbers.IndexOf | csv_to_db.py:124 | Gives the first occurrence of the character, or the length when the character does not occur. |
| PyNumbers.ExponentStart | csv_to_db.py:124 | Gives the first `e` or `E`, or the length when there is none. |
| SqlQuote.EscapeQuotes | csv_to_db.py:50 | Doubling the quotes lengthens a value by its number of quotes. |
| SqlQuote.Quote | csv_to_db.py:50 | A quoted cell begins and ends with a quote. Its length is the value's, plus two, plus its number of quotes. |
| SqlQuote.EscapeIsEscaped | csv_to_db.py:50 | After escaping, every quote belongs to a doubled pair. |
| SqlQuote.UnescapeEscape | csv_to_db.py:50 | Undoubling the quotes undoes escaping. |
| SqlQuote.EscapeUnescape | csv_to_db.py:50 | Escaping undoes undoubling, for text in which every quote is doubled. |
| SqlQuote.QuoteRoundTrip | csv_to_db.py:50 | Reading back the literal of any value gives the value. |
| SqlQuote.UnquoteRoundTrip | csv_to_db.py:50 | A well-formed literal is the quoting of exactly the value it reads back as. So quoting is a bijection onto well-formed literals. |
| SqlQuote.QuoteAddsOnlyQuotes | csv_to_db.py:50 | Quoting adds quotes and nothing else: every other character occurs as often as in the value. |
| SqlQuote.EscapeAddsOnlyQuotes | csv_to_db.py:50 | Escaping adds quotes and nothing else. |
| TableSource.TableName | csv_to_db.py:18 | The slice between the last backslash and the last `.csv`. Specified by the three `TableSource.TableName…` lemmas below. |
| TableSource.TableNameInFolder | csv_to_db.py:18 | For `folder\base.csv`, where base has no backslash, the table name is `base`. |
| TableSource.TableNameOfBareFile | csv_to_db.py:18 | For `base.csv` without a folder, the table name is `base`. |
| TableSource.TableNameWithoutExtension | csv_to_db.py:18 | For a path without a backslash or `.csv`, the name is the path without its last character. |
| TableSource.SplitLine | csv_to_db.py:26 | A stripped, split line has at least one field, and no field contains a comma. |
| TableSource.ReadContents | csv_to_db.py:21-28 | A file without lines raises at `pop(0)`. Otherwise the header is the split first line and the content is the split remaining lines, with no comma in any name or cell. |
| TableSource.ReadContentsLossless | csv_to_db.py:26 | Rejoining the header, or any row, with `,` gives the stripped line. Each has one field more than the line has commas. |
| TableSource.Classify | csv_to_db.py:41-46 | The whole-column type. Characterised cell by cell in `TableSource.ClassifyCases`. |
| TableSource.Format | csv_to_db.py:48-50 | How a cell is stored for its column type. `SqlQuote.QuoteRoundTrip` says a CHAR cell reads back as the value it was made from. |
| TableSource.CheckColumn | csv_to_db.py:103-129 | `is_col_int` or `is_col_flt` returns True exactly when every row has the column and every cell parses. Otherwise it stops at the first row that is too short (IndexError) or whose cell does not parse (False). Every earlier row has the column and parses. |
| TableSource.QuoteColumn | csv_to_db.py:48-50 | The quoting loop succeeds exactly when every row has the column. It then changes exactly cell `j` of every row into its literal. Otherwise it raises at the first short row. |
| TableSource.InferColumn | csv_to_db.py:38-50 | One column step succeeds exactly when every row has the column. It then gives the whole-column type and quotes that column only for CHAR. Otherwise it raises at the first short row. |
| TableSource.ClassifyCases | csv_to_db.py:41-46 | A column is INTEGER iff every cell is an int. It is REAL iff every cell is a float and some cell is not an int. It is CHAR iff some cell is not a float. |
| TableSource.OneTextCellMakesChar | csv_to_db.py:41-46 | A single cell that is not a number makes its column CHAR. |
| TableSource.OneFloatCellMakesReal | csv_to_db.py:41-46 | A single non-integer float in an otherwise integer column makes it REAL. |
| TableSource.NoRowsAllInteger | csv_to_db.py:108-115 | With no data rows, every column is INTEGER, because the loops have nothing to reject. |
| TableSource.ColumnFrame | csv_to_db.py:49-50 | Rewriting one column changes the classification of no other column. |
| TableSource.ColumnsFrame | csv_to_db.py:49-50 | Rewriting cells of columns up to `j` leaves the classification of every later column as it was. |
| TableSource.InferStepTypes | csv_to_db.py:38-46 | Suppose column `j` gets its whole-column type and the later columns classify the same after the rewrite. Then typing the rest gives the whole-column types of `j` onwards. |
| TableSource.InferStepCells | csv_to_db.py:48-50 | Formatting column `j` and then the rest formats each column once for its own type. |
| TableSource.SameWidths | csv_to_db.py:49-50 | Formatting column `j` changes the width of no row. So the rows cover the same widths and the same row is the first short one. |
| TableSource.InferStep | csv_to_db.py:37-50 | One round of the type loop, followed by a correct run over the later columns, gives the whole-column types from `j` on. It also formats each of those columns exactly once. |
| TableSource.InferFrom | csv_to_db.py:37-50 | Running the type loop from column `j` succeeds exactly when every row covers the header. It then gives the whole-column types and reformats exactly those columns. Otherwise it raises at the first row of the smallest width. |
| TableSource.InferTypes | csv_to_db.py:31-50 | `infer_types` succeeds exactly when no data row is narrower than the header. Then it gives column `k` its whole-column type. Cells of header columns are stored formatted once for their type, and cells beyond the header are kept as read. Otherwise the IndexError names the first row of the smallest width. |
| TableSource.NewCsv | csv_to_db.py:13-29 | Constructing a source fails on an empty file and on a short row, and only then. On success it carries the path, the sliced name and the header. Column `k` has the whole-column type of the data rows. Every data row is kept at its width, with header cells formatted for their type and later cells as read. The source is also well formed: a type per name, rows covering the header, no commas, and CHAR cells that are well-formed literals. |
| TableSource.StoredWellFormed | csv_to_db.py:48-50 | The rows `infer_types` leaves keep every cell comma-free, and every CHAR cell is a well-formed literal. |
| Statements.CreateStatement | csv_to_db.py:62 | The CREATE TABLE text. Specified by `Statements.CreateSchema`. |
| Statements.CreateSchema | csv_to_db.py:62 | CREATE TABLE names the table. Between its parentheses it lists, comma-separated, the `id` key column and then every header name with its type, and nothing else. |
| Statements.DefsCommaFree | csv_to_db.py:62 | No column definition contains a comma when no header name does. |
| Statements.InsertValues | csv_to_db.py:77-87 | `make_insert_string`. Specified, inside its INSERT, by `Statements.InsertRecoverable`. |
| Statements.InsertStatement | csv_to_db.py:67 | The INSERT text of one row. Specified by `Statements.InsertRecoverable`. |
| Statements.InsertRecoverable | csv_to_db.py:67-87 | The INSERT for row `i` names the table. Between its parentheses it lists, comma-separated, the decimal text of `i` (which reads back as `i`) and then every field of the row in order. |
| Loader.JobOf | csv_to_db.py:62-87 | The statements of one source: one INSERT per data row. `Loader.JobReadsBack` says what they read back as. |
| Loader.JobReadsBack | csv_to_db.py:62-87 | For a well-formed source, the CREATE TABLE and every INSERT the loader sends name that source's table, end as the statement requires, and read back as the schema and the row they were built from. |
| Loader.FirstBadFile | csv_to_db.py:180-187 | Gives the first file whose construction raises, or the number of files when none does. |
| Loader.ReadAll | csv_to_db.py:180-187 | `read_csvs` succeeds exactly when no file's construction raises. It then gives each file's source in order. Otherwise it raises the first failing file's exception. |
| Loader.ReadCsvs | csv_to_db.py:180-187 | Every source `read_csvs` builds is well formed, so its statements can be built. Success and order are stated by `Loader.ReadAll`. |
| Loader.FirstFailure | csv_to_db.py:65-72 | Gives the first row whose INSERT does not succeed, given the history it meets, or the number of rows when all succeed. |
| Loader.FailureOutcome | csv_to_db.py:66-72 | A failing INSERT makes `write_content` return before the commit, naming the failing row and the error's message. It is reported and returned from on OperationalError, and the exception ends the run exactly when it is of another class. |
| Loader.CommitOutcome | csv_to_db.py:75 | Once the commit is asked for, `write_content` has committed exactly when the commit succeeded. Otherwise the commit's exception leaves it. |
| Loader.InsertRows | csv_to_db.py:65-75 | The insert loop and the commit after it. Specified by `Loader.InsertRowsStopsAtFirstFailure`. |
| Loader.InsertRowsStopsAtFirstFailure | csv_to_db.py:65-75 | The insert loop asks for the INSERTs up to and including the first one that does not succeed. It asks for the commit exactly when there is no such row, and then ends as the commit ends. Otherwise it ends the way that row failed. |
| Loader.StopAtFirstFailureStep | csv_to_db.py:65-68 | A row whose INSERT succeeds is asked for, and the loop goes on from the next row. |
| Loader.WriteContent | csv_to_db.py:55-75 | `write_content`. Specified by `Loader.WriteContentStops` and `Loader.WriteContentSinceCommit`. |
| Loader.WriteContentStops | csv_to_db.py:55-75 | `write_content` asks for CREATE TABLE first. What it asks for is always a prefix of CREATE, all INSERTs, commit. It asks for the commit exactly when CREATE and every INSERT succeed, and then has asked for the whole plan and ends as the commit ends. A failing CREATE always propagates. A failing INSERT ends it right after that INSERT, returning quietly only for OperationalError. |
| Loader.CommitMark | csv_to_db.py:75 | The position just after the last commit asked for, or 0 when none was. |
| Loader.SinceCommit | csv_to_db.py:75 | The actions asked for after the last commit request contain no commit. |
| Loader.CommitMarkAppend | csv_to_db.py:75 | Actions without a commit do not move the position of the last commit. |
| Loader.SinceCommitAppend | csv_to_db.py:75 | Actions without a commit join the actions since the last commit, and a final commit leaves none. |
| Loader.WriteContentSinceCommit | csv_to_db.py:55-75 | After `write_content`, no action follows the last commit request exactly when it asked for the commit. Otherwise everything it asked for follows the actions that were already after the last commit. |
| Loader.WriteDb | csv_to_db.py:205-213 | `write_db` reports at most one outcome per source, and at least one when there are sources. What it asks for, and in which order, is stated by `Loader.WriteDbInOrder`. |
| Loader.WriteDbInOrder | csv_to_db.py:205-213 | `write_db` runs `write_content` for the sources in order: there is a sequence of histories, starting from the one before the run and ending with it plus everything the run asked for, in which source k's `write_content`, run on history k, asks for exactly the step to history k+1 and gives outcome k. Nothing else is asked for. |
| Loader.RunOfCons | csv_to_db.py:205-211 | The first source's `write_content`, followed by a run of the later sources that starts where it left off, is a run of all the sources. |
| Loader.WriteDbStopsOnlyOnRaise | csv_to_db.py:205-213 | Only the last source reached can have raised, and the run stops before the last source only when one raised. An abandoned source does not stop the run. |
| Loader.WriteDbLast | csv_to_db.py:212-213 | When the run stops at a source, no action follows the last commit request exactly when that source asked for the commit. |
| Loader.WriteDbSinceCommit | csv_to_db.py:205-213 | After a run, no action follows the last commit request exactly when the last source reached asked for the commit. |

## Left out

- `get_paths`, `create_database` and `main` (lines 132-178, 189-203, 215-233)
  read `paths.txt`, test the file system, create the database file and print.
  These are I/O, so the model takes the files' paths and lines as parameters.
- File reading is not modelled. `open` and `readlines` are replaced by the
  lines given to `NewCsv`; splitting a file into lines is not modelled.
- SQLite is not modelled. Whether a statement or a commit succeeds is given by
  the database function, so the model says nothing about what SQLite accepts
  or stores. In particular it says nothing about table names that are not
  valid identifiers, or about duplicate tables. It also says nothing about
  transactions SQLite opens, ends or rolls back on its own. The lemmas about
  commits speak of the sequence of actions the loader asks for.
- The `print` calls on an OperationalError (lines 70-71) are output only. The
  model keeps the error message in the outcome instead.
- The getters `get_path` and `get_name` (lines 90-100) only return fields of
  the record.
- PyNumbers.IsIntLiteral: Python also accepts other Unicode decimal digits,
  which the grammar rejects. Python 3.11 and later (and some earlier security
  releases) by default also reject a literal of more than 4300 digits. The
  model sets no such limit, because it depends on the interpreter's version
  and settings. Under that limit a column of such cells would be REAL, not
  INTEGER.
- PyNumbers.IsFloatLiteral: Python also accepts other Unicode decimal digits,
  which the grammar rejects.
- PyText.Slice: its contract only bounds the length. Its meaning is stated
  through the table-name lemmas. These cover every path that ends in `.csv`,
  and every path with no backslash and no `.csv` at all. Other paths, such as
  `a.csv\b` (name empty) or `x.csv.bak` (name `x`), are not covered by a
  lemma.
- Loader.WriteDb: it takes the statements of each source, as `JobOf` builds
  them, rather than the source objects. `JobReadsBack` ties those statements
  to their source.
