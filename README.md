# CPI-U loader, modelled in Dafny

This project models the load pipeline of a small BLS CPI-U tool. The tool
downloads four tab-separated files: areas, periods, items and the current
observations. It loads them into a SQLite star schema and recreates the
view `data_view` over the result. The model covers the pipeline's own
logic. The network is replaced by the fetch results, and SQLite by abstract
table state.

The files:

- `pystr.dfy` (`PyStr`): the Python string operations the loader relies
  on, with Python's meaning.
  - Clamped slices.
  - `str.strip()` over exactly the `str.isspace()` characters.
  - `split` and `join` with a one-character separator.
- `values.dfy` (`Values`): cells and tables. A DataFrame is a list of
  column names plus rows, each row a map from column name to cell. Also
  column assignment (`df[name] = vals`), projection (`data[cols]`) and the
  load error kinds.
- `series.dfy` (`Series`): `get_data_cols`.
  - The fixed-offset decomposition of a series id.
  - The 1-based `id` column.
  - A `Frame` class whose `GetDataCols` method adds the columns in place,
    in the source's order.
- `dimension.dfy` (`Dimension`): `insert_non_data_table`.
  - Splitting the text into rows and fields.
  - `INSERT OR IGNORE` as a `DimTable` class. The first column is the
    primary key, and rows are kept in rowid order.
- `facts.dfy` (`Facts`): `insert_data_table`.
  - The header strip of `text_to_df`.
  - The derivation and the projection onto the `data` column list.
  - The append, held in a `FactTable` class.
- `view.dfy` (`View`): the three left joins of `create_view`.
- `pipeline.dfy` (`Pipeline`): `update_db`. It runs the five steps in order
  against a `Database` that holds the four tables.

The main results:

- A decomposed series id gives back its first eight characters, with fixed
  part lengths. `CUSR0000SA0` decomposes to CU, S, R, 0000 and SA0.
- `INSERT OR IGNORE` is a map union. The table's existing rows win, and
  within a batch the first row with a key wins. It is idempotent, it never
  changes an existing row, and it keeps keys unique.
- A batch is refused whole in three cases: it has no data row, its first
  row's width differs from the table's, or a later row's width differs from
  the first row's.
- Every load step leaves its table unchanged when the fetch gave nothing.
  Loading the same file twice equals loading it once, so a whole run is
  idempotent.
- With unique dimension keys, the view has exactly one row per observation.
  A name is NULL exactly when the observation's code has no row in that
  dimension table.

Two behaviours of the source the model makes explicit:

- Lines 77-108 of `insert_tables.py` supply `len(rows[0])` placeholders.
  The `areas` table declares five columns, so a two-column areas file is
  refused as a whole. `Dimension.LoadExample` proves both outcomes.
- `update_db` numbers observations 1..n on every run, and the `id` key is
  declared `ON CONFLICT IGNORE`. A later run therefore skips every row
  whose number is already stored, whatever observation that row holds now
  (`Facts.ReloadIgnoresTakenIds`).

## Model

| member | source | states |
|---|---|---|
| PyStr.Slice | insert_tables.py:49-52 | `s[i:j]` with both bounds clamped to the length: the ordinary slice when the bounds fit, empty when `j <= i` or `i` is past the end, and of length `min(j, len) - min(i, len)` |
| PyStr.SliceConcat | insert_tables.py:49-52 | adjacent slices concatenate to the slice spanning both |
| PyStr.SliceFrom | insert_tables.py:53 | `s[i:]`: the suffix from `i`, empty when `i` is past the end |
| PyStr.TrimStart | insert_tables.py:53 | `lstrip` keeps no leading whitespace and never lengthens the string |
| PyStr.TrimStartDropsSpace | insert_tables.py:53 | `lstrip` keeps a suffix of the string and what it removes is all whitespace |
| PyStr.TrimEnd | insert_tables.py:53 | `rstrip` keeps a prefix of the string with no trailing whitespace |
| PyStr.TrimEndDropsSpace | insert_tables.py:53 | what `rstrip` removes is all whitespace |
| PyStr.Strip | insert_tables.py:53 | the result has no `isspace` character at either end and is no longer than the input |
| PyStr.StripUnique | insert_tables.py:53 | whitespace, then a string with no whitespace at its ends, then whitespace: `strip` returns exactly that middle string |
| PyStr.StripEmpty | insert_tables.py:93-94 | a text strips to the empty string exactly when all of it is whitespace |
| PyStr.StripIdempotent | insert_tables.py:40 | stripping a stripped string changes nothing |
| PyStr.Split | insert_tables.py:94-95 | `split` gives at least one piece, and no piece contains the separator |
| PyStr.Join | insert_tables.py:101 | `c.join(parts)` begins with the first piece, followed by the separator when there are two or more pieces |
| PyStr.JoinSplit | insert_tables.py:95 | joining the pieces of a split with the same separator rebuilds the string |
| PyStr.SplitJoin | insert_tables.py:95 | splitting a join of separator-free pieces gives back the pieces |
| PyStr.SplitPiecesFrom | insert_tables.py:95 | every character of a piece comes from the string that was split |
| Values.WithColumnColumns | insert_tables.py:48-53 | assigning a column keeps every existing column in its place and adds the name if it is new |
| Values.WithColumnCells | insert_tables.py:48-53 | assigning a column writes the values into that column in row order and keeps every other cell |
| Values.WithColumnWellFormed | insert_tables.py:48-53 | assigning a column keeps every row's keys equal to the column list |
| Values.WithColumn | insert_tables.py:48-53 | `df[name] = vals` keeps the number of rows |
| Values.Select | insert_tables.py:56-58 | the projection exists exactly when every requested name is a column; it has exactly the requested columns in that order, the same number of rows, every kept cell unchanged, and it stays well formed |
| Values.SelectGet | insert_tables.py:58 | a projected row reads like the original in every kept column |
| Series.PrefixOf | insert_tables.py:49 | `x[:2]` is the prefix of `x` of length `min(2, len(x))` |
| Series.SeasonalOf | insert_tables.py:50 | `x[2:3]` is the third character, or empty when `x` is shorter |
| Series.PeriodicityOf | insert_tables.py:51 | `x[3:4]` is the fourth character, or empty when `x` is shorter |
| Series.AreaCodeOf | insert_tables.py:52 | `x[4:8]` has length `min(8, len) - min(4, len)` and follows the first four characters |
| Series.ItemCodeOf | insert_tables.py:53 | `x[8:].strip()` has no whitespace at its ends, is no longer than `x[8:]`, and is empty when `x` has at most eight characters |
| Series.Decompose | insert_tables.py:49-53 | each part has its clamped Python slice length at every length of the series id (2, 1, 1, 4 from eight characters on); the first four parts concatenate to the first eight characters (all of it when shorter); with at most eight the item code is empty |
| Series.DecomposeFixed | insert_tables.py:49-53 | an id built from parts of lengths 2, 1, 1, 4 and an item code without surrounding whitespace decomposes into exactly those parts |
| Series.ItemCodeIsTrimmedTail | insert_tables.py:53 | the item code is what lies between the whitespace at the two ends of `series_id[8:]` |
| Series.ItemCodeStripped | insert_tables.py:53 | the item code never begins or ends with whitespace |
| Series.DecomposeAllItemsSeries | insert_tables.py:49-53 | `CUSR0000SA0` decomposes to CU, S, R, 0000, SA0 |
| Series.DecomposePaddedSeries | insert_tables.py:53 | the item code of a series id padded with trailing blanks is still `SA0` |
| Series.PaddedItemCode | insert_tables.py:53 | whitespace after the item code never reaches it |
| Series.Ids | insert_tables.py:48 | one id per row |
| Series.WithIds | insert_tables.py:48 | `data['id'] = data.index + 1` keeps every row, adds the `id` column, and row k holds id k+1 |
| Series.PartColumn | insert_tables.py:49-53 | a part column has one text cell per row |
| Series.DeriveError | insert_tables.py:48-53 | `get_data_cols` stops exactly when there is no `series_id` column (KeyError) or some series id is not a string (TypeError), and only with those errors |
| Series.Derived | insert_tables.py:46-54 | the derived frame keeps every row and every column of the input; its cells are stated in `Series.DerivedSpec` |
| Series.DerivedColumns | insert_tables.py:46-54 | after derivation the columns are the input's plus `id` and the five parts |
| Series.DerivedWellFormed | insert_tables.py:46-54 | derivation keeps the frame well formed |
| Series.DerivedRow | insert_tables.py:48-53 | each derived row is its input row extended with its number and the parts of its own series id |
| Series.ExtendRowSpec | insert_tables.py:48-53 | an extended row has its old keys plus the six new ones, holds `id` k+1 and the five parts, and keeps every other cell |
| Series.DerivedRowSpec | insert_tables.py:48-53 | row k of the derived frame holds id k+1 and the decomposition of row k's own series id, and keeps its other cells |
| Series.DerivedSpec | insert_tables.py:46-54 | the derived frame keeps every row, numbers the rows 1..n in source order, gives each row the decomposition of its own series id, keeps every other cell, and stays well formed |
| Series.SeriesIdsKept | insert_tables.py:48-53 | assigning any other column leaves the `series_id` column and its cells as they were |
| Series.Frame.constructor | insert_tables.py:39 | the frame holds the table the reader produced |
| Series.Frame.SetColumn | insert_tables.py:48 | the frame after `data[name] = vals` is the column assignment of the frame before |
| Series.Frame.ApplyToSeriesIds | insert_tables.py:49-53 | `apply` succeeds exactly when every series id is a string, and then maps each series id, in row order |
| Series.Frame.WritePart | insert_tables.py:49-53 | writing a part column equals assigning that part of each row's series id, and keeps the series ids |
| Series.Frame.GetDataCols | insert_tables.py:46-54 | the frame becomes the derived frame; with no `series_id` column, or a cell that is not a string, it fails after writing only `id` |
| Dimension.Lines | insert_tables.py:94 | the stripped text always has at least one line |
| Dimension.SplitRows | insert_tables.py:94-95 | one row per line after the header, each with at least one field |
| Dimension.SplitRowsRejoin | insert_tables.py:94-95 | joining a row's fields with the separator rebuilds its line, and no field holds the separator or a line break |
| Dimension.NoLineBreakNoRows | insert_tables.py:94-95 | text with no line break once stripped (blank, or a header alone) has no data row |
| Dimension.Fresh | insert_tables.py:103 | `INSERT OR IGNORE` adds at most one row per batch row; which ones is stated in `Dimension.FreshKeys`, `Dimension.FreshFirst` and `Dimension.FreshIndex` |
| Dimension.BatchError | insert_tables.py:94-103 | the batch is accepted exactly when it has a row and every row has the table's width; otherwise the error is no row, an arity mismatch or a binding count error |
| Dimension.AfterInsert | insert_tables.py:97-103 | an insert only appends rows, at most one per batch row |
| Dimension.InsertStatus | insert_tables.py:97-104 | the step fails exactly when the batch is refused, and then the table is unchanged; otherwise it reports the number of rows the insert added |
| Dimension.KeysAppend | insert_tables.py:103 | the keys of two row lists together are the union of their keys |
| Dimension.FreshKeys | insert_tables.py:103 | the keys an insert adds are exactly the batch keys the table lacks |
| Dimension.FreshUnique | insert_tables.py:103 | an insert adds at most one row per key |
| Dimension.FreshFirst | insert_tables.py:103 | each added row is a batch row whose key is neither in the table nor in an earlier batch row |
| Dimension.FreshStep | insert_tables.py:103 | one more batch row is added exactly when its key is neither stored nor in an earlier batch row |
| Dimension.FreshOfSeen | insert_tables.py:103 | a batch whose keys are all present adds nothing |
| Dimension.IndexAppend | create_db.py:73-97 | the key-to-row view of two row lists together gives the first list's rows priority |
| Dimension.IndexKeys | create_db.py:73-97 | the keys of the index are the keys of the rows |
| Dimension.Index | create_db.py:73-97 | the key-to-row view of a table: the first row is filed under its own key (first row wins); `IndexKeys`, `IndexKeyOf`, `IndexAppend` and `View.IndexHolds` state the rest |
| Dimension.IndexKeyOf | create_db.py:73-97 | the row the index files under a key has that key |
| Dimension.IndexOfUnique | create_db.py:73-97 | with unique keys, each row is found under its own key |
| Dimension.FreshIndex | insert_tables.py:103 | on keys the table lacks, the added rows index exactly as the batch does, first row winning, and they hold no stored key |
| Dimension.FreshIndexAt | insert_tables.py:103 | for one key the table lacks, the added rows and the batch index alike |
| Dimension.InsertAsMap | insert_tables.py:97-103 | an accepted insert is the map union of the table and the batch, with the table's rows winning |
| Dimension.InsertKeepsExisting | insert_tables.py:97-103 | every key the table held maps to the same row after the insert, whatever the batch |
| Dimension.InsertKeys | insert_tables.py:97-103 | an accepted batch leaves the old keys plus the batch keys; a refused one leaves the table as it was; keys stay unique |
| Dimension.InsertKeepsWidth | insert_tables.py:101 | every row after an insert has the table's width |
| Dimension.InsertIdempotent | insert_tables.py:97-103 | inserting the same batch again changes nothing |
| Dimension.AfterLoad | insert_tables.py:91-108 | a load only appends rows, and without text it changes nothing |
| Dimension.LoadStatus | insert_tables.py:91-108 | without text the step reports `NoText`; a failed step leaves the table unchanged; otherwise it reports the number of rows added |
| Dimension.LoadIdempotent | insert_tables.py:91-108 | loading the same file twice equals loading it once |
| Dimension.LoadWithoutData | insert_tables.py:93-108 | with no text, blank text or a header alone, the table is unchanged and the step reports a failure |
| Dimension.LoadExample | insert_tables.py:94-103 | the two-line areas file inserts one row into a two-column table; the five-column `areas` table refuses it with an arity mismatch |
| Dimension.LoadOneRow | insert_tables.py:94-103 | a header plus one two-field line inserts that row into an empty two-column table, and is refused by a five-column one |
| Dimension.InsertOneRecord | insert_tables.py:97-103 | a record of the table's width goes into an empty table as its only row |
| Dimension.ExampleLines | insert_tables.py:94 | a header line and a data line, with a final line break, give exactly those two lines |
| Dimension.StripsFinalBreak | insert_tables.py:94 | `strip` removes a final line break after text without surrounding whitespace |
| Dimension.ExampleFields | insert_tables.py:95 | a line with one tab splits into the two fields around it |
| Dimension.ExecuteMany | insert_tables.py:103 | the statement succeeds exactly when every row has the first row's width, and then adds exactly the rows of the insert specification |
| Dimension.DimTable.constructor | create_db.py:71-97 | a new table is empty and has the declared columns |
| Dimension.DimTable.InsertOrIgnore | insert_tables.py:97-103 | the table becomes the insert of the batch into the table before, and the step reports the error or the number of rows added; keys stay unique and rows keep the table's width |
| Dimension.DimTable.Load | insert_tables.py:91-108 | the table becomes the load of the fetched text, and the step reports the outcome, `NoText` when the fetch gave nothing |
| Facts.StripNames | insert_tables.py:40 | one name per header token, none with whitespace at its ends |
| Facts.StripNamesIdempotent | insert_tables.py:40 | renaming the stripped names again changes nothing |
| Facts.PaddedNameFound | insert_tables.py:40 | a header token padded with whitespace is found under its bare name |
| Facts.RowOf | insert_tables.py:39 | a record's row has exactly the column names as keys, and with distinct names each name holds the record's cell in its position, NaN where the record is short |
| Facts.TextToDf | insert_tables.py:38-44 | the frame is built exactly when the stripped names are distinct and no record is wider than the header; it then has the stripped names as columns and one row per record, and is well formed |
| Facts.TextToDfCells | insert_tables.py:39-40 | each cell is the record's cell in that position, or NaN where the record is short |
| Facts.FactsValid | create_db.py:53-67 | the table constraints; they hold for zero or one row, and when they hold no two rows share an id |
| Facts.AppendStatus | insert_tables.py:130 | the append fails exactly when the batch clashes on `UNIQUE(series_id, year, period)`, then reports that violation and leaves the table unchanged; otherwise it reports the number of rows added |
| Facts.FactLoadStatus | insert_tables.py:124-134 | without text the step reports `NoText`; a failed step leaves the table unchanged; otherwise it reports the number of rows added |
| Facts.FirstMissing | insert_tables.py:58 | the reported name is requested and is not a column |
| Facts.AppendOne | insert_tables.py:130 | one row aborts exactly when its id is free and its (series_id, year, period) clashes; otherwise the table only grows, by at most that row, and its id is then taken |
| Facts.AppendAll | insert_tables.py:130 | an accepted append never shortens the table |
| Facts.AppendAllStep | insert_tables.py:130 | one more batch row is one more single-row append, after which an abort stays an abort |
| Facts.AfterAppend | insert_tables.py:130 | an append keeps the old rows as a prefix, and an aborted one leaves the table unchanged |
| Facts.IdSetSnoc | create_db.py:53 | adding a row adds its id to the taken ids |
| Facts.AppendExtends | insert_tables.py:130 | an accepted append keeps the old rows as they were, adds only batch rows whose id was free, and leaves every batch id taken |
| Facts.AppendValid | create_db.py:53-67 | an accepted append keeps ids unique and the (series_id, year, period) triples free of clashes |
| Facts.AppendTakenIds | create_db.py:53 | a batch whose ids are all taken adds nothing and cannot fail |
| Facts.AppendIdempotent | insert_tables.py:130 | appending the same batch twice leaves the table as appending it once, and the second append adds nothing |
| Facts.AppendAbortStays | create_db.py:67 | once a prefix of the batch aborts, the whole batch aborts |
| Facts.ArrangeNeeds | insert_tables.py:128-129 | arranging succeeds exactly when the file supplies `year`, `period`, `value` and `footnote_codes`; the derivation supplies the rest |
| Facts.SelectDataColumns | insert_tables.py:129 | arranging a frame with the derived columns needs exactly those four columns of the file |
| Facts.ArrangedKeys | insert_tables.py:129 | an arranged row has exactly the `data` columns |
| Facts.ArrangedParts | insert_tables.py:128-129 | an arranged row keeps its series id and holds its number and the parts of that series id |
| Facts.SelectKeepsParts | insert_tables.py:129 | arranging keeps the series id, the id and the five part cells of each row |
| Facts.Prepare | insert_tables.py:124-129 | without text the step stops with `NoText`; it stops only with `NoText`, a parse failure, a missing column or a non-string series id; it reaches a batch exactly when there is text, the reader parses it, the frame is built, every series id is a string and the file supplies `year`, `period`, `value` and `footnote_codes`; a batch has one row per record the reader returned |
| Facts.Arrange | insert_tables.py:56-58 | `data[data_cols]` on the derived frame succeeds exactly when the file supplies `year`, `period`, `value` and `footnote_codes`, then keeps every row; otherwise it stops with a missing column |
| Facts.PreparedFrom | insert_tables.py:127-129 | a prepared batch is the arranged derived frame of what the reader returned, one row per frame row |
| Facts.ObservationHeaderStripped | insert_tables.py:40 | renaming the padded header of an observation file gives `series_id`, `year`, `period`, `value`, `footnote_codes` |
| Facts.ObservationFrame | insert_tables.py:38-53 | records under that header, none wider than it and each starting with a string, make a frame that derives without error and supplies every column the arrangement needs |
| Facts.ObservationFileBatch | insert_tables.py:124-129 | such a file reaches the append, with one prepared row per record |
| Facts.OneObservationBatch | insert_tables.py:124-129 | a concrete one-observation file with a padded header reaches the append with one row |
| Facts.AfterFactLoad | insert_tables.py:124-134 | a load only appends rows, and a step stopped before the append changes nothing |
| Facts.PreparedRows | insert_tables.py:125-129 | every row the step prepares has exactly the `data` columns, a string series id, the id k+1 and the decomposition of its own series id |
| Facts.PreparedIds | insert_tables.py:48 | the prepared rows are numbered 1..n |
| Facts.FactLoadUnchanged | insert_tables.py:126-134 | with no text, when the step fails, or when the file has a header and no data row, the `data` table is unchanged |
| Facts.FactLoadIdempotent | insert_tables.py:124-134 | loading the same observation file twice equals loading it once |
| Facts.ReloadIgnoresTakenIds | insert_tables.py:48 | once ids 1..n are stored, a file of at most n rows adds nothing and reports no rows inserted |
| Facts.FactTable.constructor | create_db.py:52-68 | a new `data` table is empty |
| Facts.FactTable.Append | insert_tables.py:130 | the table becomes the atomic append of the batch to the table before, and the step reports the number of rows added or the unique violation; the constraints still hold |
| Facts.FactTable.InsertDataTable | insert_tables.py:124-134 | the table becomes the load of the fetched text into the table before, and the step reports the outcome |
| View.Matches | insert_tables.py:145-150 | the matches are exactly the table's rows whose key equals the code (so a key held by several rows matches all of them), and there are at most as many as rows |
| View.MatchesMultiset | insert_tables.py:145-150 | the join keeps duplicates: a matching row occurs among the matches as often as in the table, any other row not at all |
| View.Names | insert_tables.py:145-150 | a left join contributes at least one name per key: exactly NULL when nothing matches, and otherwise one name per matching row, in table order |
| View.WithPeriods | insert_tables.py:149-150 | one view row per period match |
| View.WithItemsLength | insert_tables.py:147-150 | the rows for one area match are item matches times period matches |
| View.WithAreasLength | insert_tables.py:145-150 | an observation's rows are area matches times item matches times period matches |
| View.RowsOfCount | insert_tables.py:139-151 | each observation gives the product of its match counts, and at least one row |
| View.ViewOf | insert_tables.py:139-151 | the view is empty exactly when `data` is |
| View.ViewKeepsEveryObservation | insert_tables.py:139-151 | the view has at least as many rows as `data`, whatever the dimension tables hold |
| View.UniqueKeysTail | create_db.py:73-97 | unique keys stay unique without the first row, and the first key does not recur |
| View.MatchesUnique | insert_tables.py:145-150 | with unique keys, a key matches the row the index holds for it, or nothing |
| View.SingleRow | insert_tables.py:139-151 | one match in each join gives exactly one view row |
| View.NamesUnique | insert_tables.py:145-150 | with unique keys, each join contributes exactly the looked-up name |
| View.ViewExactlyOnce | insert_tables.py:139-151 | with unique dimension keys there is exactly one view row per observation, namely its lookup row (the order, that of `data`, is the model's choice: the query has no ORDER BY) |
| View.Lookup | insert_tables.py:145-150 | a name the lookup finds is the name field of a row of the table whose key equals the code, and the code is then text and one of the table's keys |
| View.LookupRow | insert_tables.py:142-150 | the row keeps the observation's series id, codes, year, period and value, and a name that is not NULL is the name field of a dimension row whose key equals the observation's code |
| View.LookupNull | insert_tables.py:145-150 | a looked-up name is NULL exactly when no row has the key |
| View.IndexHolds | create_db.py:73-97 | the index holds only rows of the table |
| View.ViewNames | insert_tables.py:139-151 | in view row k a name is NULL exactly when observation k's code has no dimension row; the other columns are the observation's own |
| View.ViewNamesFrom | insert_tables.py:139-151 | with unique dimension keys, each name in view row k that is not NULL is the name field of a dimension row whose key equals observation k's code |
| View.MakeRow | insert_tables.py:141-143 | the SELECT list: the row carries the observation's series id, area and item codes, year, period and value unchanged |
| View.RowsOf | insert_tables.py:144-150 | the three left joins give an observation at least one view row |
| Pipeline.UpdateIdempotent | insert_tables.py:161-176 | running the update twice with the same files leaves the tables as running it once |
| Pipeline.UpdateWithoutText | insert_tables.py:169-175 | a run whose fetches all fail changes no table |
| Pipeline.AfterUpdate | insert_tables.py:161-176 | a run only appends rows: every table's old rows stay, in order, at its front |
| Pipeline.Database.constructor | create_db.py:52-104 | the four tables exist, empty, with the declared columns |
| Pipeline.Database.CreateView | insert_tables.py:137-158 | the view is (re)defined, and its row count is the number of observations |
| Pipeline.Database.UpdateDb | insert_tables.py:161-176 | the steps run in the order areas, periods, items, data, view; each table after the run depends only on its own file; each step's outcome is reported; the view counts one row per observation |

## Left out

- `read_text_from_url` (insert_tables.py:8-25) is network I/O. Each fetch is
  an `Option<string>` parameter, with `None` for a failed fetch or decode.
- `create_sqlite_connection`, `conn.close()` and the console output are left
  out, and the failed-connection branch of `update_db` with them.
  `cursor.rowcount` is replaced by the number of rows the model adds.
- pandas `read_csv` is the `Reader` function parameter. It gives raw header
  tokens and cells, and is not modelled further.
- `Facts.TextToDf` reads as a failed parse two cases that pandas would
  accept rather than reject:
  - header names that collide once stripped, where pandas would keep
    duplicate columns;
  - a first data record wider than the header, from which pandas would
    build an index. A wider record further down fails in pandas too, with a
    tokenizing error, and so agrees with the model.
- `to_sql` is modelled as a row-by-row insert in one transaction. Two
  behaviours there are assumed, since pandas and SQLite are not visible:
  - A row whose `id` is taken is skipped, following `ON CONFLICT IGNORE`.
  - Otherwise a clash on `UNIQUE(series_id, year, period)` aborts and undoes
    the whole batch.
- `to_sql` creating a missing table, and the DDL of create_db.py, are left
  out. The schema is taken as existing, with the columns it declares.
- Facts.AppendOne: a NULL `id` is treated as an ordinary key, so a second
  row with a NULL id is skipped. SQLite would give it a fresh rowid. The
  step never sends such a row, because every prepared row has the id k+1.
- Foreign keys are not checked. SQLite leaves them off by default, so
  observations load whatever the dimension tables hold.
- SQLite type affinity and its cross-type comparisons are left out. A join
  key matches only a text cell equal to it.
- The `value` column is floating point. It is an opaque cell the model
  never inspects.
- Dimension.DimTable.Load: the separator is a single character. A
  multi-character or empty separator is not modelled.
- Pipeline.Database.CreateView: cannot fail in the model, because statements
  on an open connection are taken to succeed.
- `example_use.py` and the `__main__` block (insert_tables.py:179-180) are
  not part of this model. They are a query client and an entry point that
  reads the environment, and `os` is never imported in that file.
