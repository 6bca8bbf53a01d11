/** Cells, rows and tables as the loader handles them: a DataFrame (or a
    stored table) is a list of column names and a sequence of rows, each row
    a map from column name to cell. */
module Values {

  datatype Option<T> = None | Some(value: T)

  /** A cell value. `Null` is SQL NULL / pandas NaN; `Opaque` stands for a
      floating-point value, which the model never inspects. */
  datatype Cell = Null | Text(s: string) | Int(i: int) | Opaque(token: int)

  type Row = map<string, Cell>

  /** Why a load step gave up. Each one is caught and printed by the step
      that raised it; none escapes the step. */
  datatype LoadError =
    | NoText                  // the fetch gave no text (None or empty)
    | NoDataRow               // `rows[0]` on an empty row list: IndexError
    | ArityMismatch(expected: nat, supplied: nat)  // INSERT with the wrong number of values
    | BindingCount            // a later row with another number of fields than the first
    | ParseFailed             // the CSV reader could not read the text
    | MissingColumn(name: string)  // KeyError on a column lookup
    | NotAString              // a series_id cell that is not a string: TypeError
    | UniqueViolation         // UNIQUE(series_id, year, period) violated on append

  /** The outcome of one load step. */
  datatype Status = Inserted(count: nat) | Failed(error: LoadError)

  datatype Table = Table(columns: seq<string>, rows: seq<Row>)

  function ColumnSet(columns: seq<string>): set<string> {
    set c | c in columns
  }

  /** Every row has exactly the table's columns as keys. */
  predicate WellFormed(t: Table) {
    forall k :: 0 <= k < |t.rows| ==> t.rows[k].Keys == ColumnSet(t.columns)
  }

  /** The cell of `row` in column `name`; a missing column reads as NULL. */
  function Get(row: Row, name: string): Cell {
    if name in row then row[name] else Null
  }

  /** `df[name] = vals`: an existing column is overwritten where it stands,
      a new one is appended after the last column. */
  function WithColumn(t: Table, name: string, vals: seq<Cell>): (r: Table)
    requires |vals| == |t.rows|
    ensures |r.rows| == |t.rows|
  {
    Table(if name in t.columns then t.columns else t.columns + [name],
          seq(|t.rows|, k requires 0 <= k < |t.rows| => t.rows[k][name := vals[k]]))
  }

  /** A column assignment keeps every existing column in place and adds
      `name` if it is new. */
  lemma WithColumnColumns(t: Table, name: string, vals: seq<Cell>)
    requires |vals| == |t.rows|
    ensures var r := WithColumn(t, name, vals);
      && (forall c :: c in r.columns <==> c in t.columns || c == name)
      && |t.columns| <= |r.columns| && (forall i :: 0 <= i < |t.columns| ==> r.columns[i] == t.columns[i])
  {
  }

  /** A column assignment keeps the table well formed. */
  lemma WithColumnWellFormed(t: Table, name: string, vals: seq<Cell>)
    requires |vals| == |t.rows| && WellFormed(t)
    ensures WellFormed(WithColumn(t, name, vals))
  {
    WithColumnColumns(t, name, vals);
    assert ColumnSet(WithColumn(t, name, vals).columns) == ColumnSet(t.columns) + {name};
  }

  /** A column assignment writes `vals` into column `name` and keeps every
      other cell. */
  lemma WithColumnCells(t: Table, name: string, vals: seq<Cell>)
    requires |vals| == |t.rows|
    ensures var r := WithColumn(t, name, vals);
      && (forall k :: 0 <= k < |r.rows| ==> name in r.rows[k] && r.rows[k][name] == vals[k])
      && (forall k, c :: 0 <= k < |r.rows| && c in t.rows[k] && c != name ==>
            c in r.rows[k] && r.rows[k][c] == t.rows[k][c])
  {
  }

  /** `data[cols]`: the columns `cols`, in that order, of every row; a name
      that is not a column raises `KeyError` (here `None`). */
  function Select(t: Table, cols: seq<string>): (r: Option<Table>)
    ensures r.Some? <==> forall c :: c in cols ==> c in t.columns
    ensures r.Some? ==> r.value.columns == cols && |r.value.rows| == |t.rows|
    ensures r.Some? && WellFormed(t) ==> WellFormed(r.value)
    ensures r.Some? ==> forall k, c :: 0 <= k < |t.rows| && c in cols && c in t.rows[k] ==>
                          c in r.value.rows[k] && r.value.rows[k][c] == t.rows[k][c]
  {
    if forall c :: c in cols ==> c in t.columns then
      Some(Table(cols, seq(|t.rows|, k requires 0 <= k < |t.rows| =>
                             map c | c in cols && c in t.rows[k] :: t.rows[k][c])))
    else None
  }

  /** A projected row reads like the original in every kept column. */
  lemma SelectGet(t: Table, cols: seq<string>, k: nat, c: string)
    requires Select(t, cols).Some? && k < |t.rows| && c in cols && c in t.rows[k]
    ensures Get(Select(t, cols).value.rows[k], c) == Get(t.rows[k], c)
  {
  }
}
