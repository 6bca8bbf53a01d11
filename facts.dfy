/** Loading the observation file (`insert_data_table`): the text is read into
    a data frame whose header names are stripped, the series id is broken
    down, the columns are put in the table's order, and the rows are
    appended to the `data` table. */
module Facts {
  import opened PyStr
  import opened Values
  import opened Series

  /** What the CSV reader gives back: the raw header tokens and, for each
      line, its cells in column order. */
  datatype RawCsv = RawCsv(header: seq<string>, records: seq<seq<Cell>>)

  /** `pd.read_csv(StringIO(text), sep=separator)`, which is not part of
      this model: `None` when it raises. */
  type Reader = (string, char) -> Option<RawCsv>

  /** `df.rename(columns=lambda x: x.strip())` on the header. */
  function StripNames(header: seq<string>): (names: seq<string>)
    ensures |names| == |header|
    ensures forall k :: 0 <= k < |names| ==> Stripped(names[k])
  {
    seq(|header|, k requires 0 <= k < |header| => Strip(header[k]))
  }

  /** Renaming twice gives the names renaming once gave. */
  lemma StripNamesIdempotent(header: seq<string>)
    ensures StripNames(StripNames(header)) == StripNames(header)
  {
    forall k | 0 <= k < |header| ensures Strip(Strip(header[k])) == Strip(header[k]) {
      StripIdempotent(header[k]);
    }
  }

  /** A header token padded with whitespace on either side, as the
      observation file pads `series_id` and `value`, is found under its bare
      name. */
  lemma PaddedNameFound(header: seq<string>, k: nat, a: string, name: string, b: string)
    requires k < |header| && header[k] == a + name + b
    requires AllSpace(a) && AllSpace(b) && Stripped(name)
    ensures StripNames(header)[k] == name
  {
    StripUnique(a, name, b);
  }

  predicate Distinct(names: seq<string>) {
    forall i, j :: 0 <= i < j < |names| ==> names[i] != names[j]
  }

  function IndexOf(names: seq<string>, c: string): (j: nat)
    requires c in names
    ensures j < |names| && names[j] == c
  {
    if names[0] == c then 0 else 1 + IndexOf(names[1..], c)
  }

  /** The row of one record: each name gets the cell in its position; the
      positions a short record lacks are NaN. */
  function RowOf(names: seq<string>, cells: seq<Cell>): (r: Row)
    ensures r.Keys == set c | c in names
    ensures Distinct(names) ==> forall j :: 0 <= j < |names| ==> r[names[j]] == if j < |cells| then cells[j] else Null
  {
    map c | c in names :: var j := IndexOf(names, c); if j < |cells| then cells[j] else Null
  }

  /** `text_to_df` for what the reader returned. Names that collide once
      stripped and records wider than the header are read as a failed parse. */
  function TextToDf(raw: RawCsv): (t: Option<Table>)
    ensures t.Some? <==>
      (Distinct(StripNames(raw.header)) && forall k :: 0 <= k < |raw.records| ==> |raw.records[k]| <= |raw.header|)
    ensures t.Some? ==> t.value.columns == StripNames(raw.header) && |t.value.rows| == |raw.records|
    ensures t.Some? ==> WellFormed(t.value)
  {
    var names := StripNames(raw.header);
    if Distinct(names) && forall k :: 0 <= k < |raw.records| ==> |raw.records[k]| <= |names| then
      Some(Table(names, seq(|raw.records|, k requires 0 <= k < |raw.records| => RowOf(names, raw.records[k]))))
    else None
  }

  /** Every cell of the frame is the record's cell under its stripped name. */
  lemma TextToDfCells(raw: RawCsv)
    requires TextToDf(raw).Some?
    ensures var t := TextToDf(raw).value;
      forall k, j :: 0 <= k < |raw.records| && 0 <= j < |raw.header| ==>
        Get(t.rows[k], t.columns[j]) == if j < |raw.records[k]| then raw.records[k][j] else Null
  {
    var names := StripNames(raw.header);
    forall k, j | 0 <= k < |raw.records| && 0 <= j < |raw.header|
      ensures Get(TextToDf(raw).value.rows[k], names[j]) == if j < |raw.records[k]| then raw.records[k][j] else Null
    {
      assert IndexOf(names, names[j]) == j;
    }
  }

  /** `data_cols` of `update_db`: the column order of the `data` table. */
  const DataColumns: seq<string> :=
    ["id", "series_id", "prefix", "seasonal", "periodicity", "area_code", "item_code",
     "year", "period", "value", "footnote_codes"]

  /** The first name of `cols` that `have` lacks. The model reports it in
      place of pandas' `KeyError`, which lists every missing name. */
  function FirstMissing(cols: seq<string>, have: seq<string>): (c: string)
    requires exists c :: c in cols && c !in have
    ensures c in cols && c !in have
  {
    if cols[0] !in have then cols[0] else FirstMissing(cols[1..], have)
  }

  function IdOf(r: Row): Cell {
    Get(r, "id")
  }

  function IdSet(rows: seq<Row>): set<Cell> {
    set k | 0 <= k < |rows| :: IdOf(rows[k])
  }

  /** Two rows clash on `UNIQUE(series_id, year, period)`; NULL equals
      nothing in SQL, so a triple with a NULL never clashes. */
  predicate Collide(r: Row, s: Row) {
    && Get(r, "series_id") != Null && Get(r, "year") != Null && Get(r, "period") != Null
    && Get(r, "series_id") == Get(s, "series_id") && Get(r, "year") == Get(s, "year")
    && Get(r, "period") == Get(s, "period")
  }

  predicate ClashesWith(rows: seq<Row>, r: Row) {
    exists k :: 0 <= k < |rows| && Collide(r, rows[k])
  }

  /** The `data` table's constraints: `id` is a primary key and
      (series_id, year, period) is unique. */
  predicate FactsValid(rows: seq<Row>)
    ensures |rows| <= 1 ==> FactsValid(rows)
    ensures FactsValid(rows) ==> forall i, j :: 0 <= i < |rows| && 0 <= j < |rows| && IdOf(rows[i]) == IdOf(rows[j]) ==> i == j
  {
    forall i, j :: 0 <= i < j < |rows| ==> IdOf(rows[i]) != IdOf(rows[j]) && !Collide(rows[j], rows[i])
  }

  /** One appended row: `id ... ON CONFLICT IGNORE` skips a row whose id is
      taken; otherwise a clash on the unique triple aborts the statement. */
  function AppendOne(acc: seq<Row>, row: Row): (r: Option<seq<Row>>)
    ensures r.None? <==> IdOf(row) !in IdSet(acc) && ClashesWith(acc, row)
    ensures r.Some? ==> acc <= r.value && |r.value| <= |acc| + 1 && IdSet(r.value) == IdSet(acc) + {IdOf(row)}
  {
    if IdOf(row) in IdSet(acc) then Some(acc)
    else if ClashesWith(acc, row) then None
    else
      IdSetSnoc(acc, row);
      Some(acc + [row])
  }

  /** `to_sql(..., if_exists='append')` row by row; `None` when a row aborts. */
  function AppendAll(rows: seq<Row>, batch: seq<Row>): (r: Option<seq<Row>>)
    ensures r.Some? ==> |rows| <= |r.value|
    decreases |batch|
  {
    if batch == [] then Some(rows)
    else
      match AppendAll(rows, batch[..|batch| - 1])
      case None => None
      case Some(acc) => AppendOne(acc, batch[|batch| - 1])
  }

  /** The append runs in one transaction: an aborted row undoes the batch. */
  function AfterAppend(rows: seq<Row>, batch: seq<Row>): (r: seq<Row>)
    ensures rows <= r
    ensures AppendAll(rows, batch).None? ==> r == rows
  {
    match AppendAll(rows, batch)
    case Some(r) => AppendExtends(rows, batch); r
    case None => rows
  }

  function AppendStatus(rows: seq<Row>, batch: seq<Row>): (st: Status)
    ensures st.Failed? <==> AppendAll(rows, batch).None?
    ensures st.Failed? ==> st.error == UniqueViolation && AfterAppend(rows, batch) == rows
    ensures st.Inserted? ==> st.count == |AfterAppend(rows, batch)| - |rows|
  {
    match AppendAll(rows, batch)
    case Some(r) => Inserted(|r| - |rows|)
    case None => Failed(UniqueViolation)
  }

  /** One more batch row is one more `AppendOne`. */
  lemma AppendAllStep(rows: seq<Row>, batch: seq<Row>, i: nat)
    requires i < |batch|
    ensures AppendAll(rows, batch[..i + 1]) ==
      if AppendAll(rows, batch[..i]).None? then None else AppendOne(AppendAll(rows, batch[..i]).value, batch[i])
  {
    assert batch[..i + 1][..i] == batch[..i] && batch[..i + 1][i] == batch[i];
  }

  lemma IdSetSnoc(rows: seq<Row>, r: Row)
    ensures IdSet(rows + [r]) == IdSet(rows) + {IdOf(r)}
  {
    var all := rows + [r];
    forall x | x in IdSet(all) ensures x in IdSet(rows) + {IdOf(r)} {
      var k :| 0 <= k < |all| && IdOf(all[k]) == x;
      if k < |rows| { assert all[k] == rows[k]; }
    }
    forall x | x in IdSet(rows) ensures x in IdSet(all) {
      var k :| 0 <= k < |rows| && IdOf(rows[k]) == x;
      assert all[k] == rows[k];
    }
    assert all[|rows|] == r;
  }

  /** An accepted append keeps the old rows as they were, adds only batch
      rows whose id was free, and leaves taken every id of the batch. */
  lemma {:induction false} AppendExtends(rows: seq<Row>, batch: seq<Row>)
    requires AppendAll(rows, batch).Some?
    ensures var r := AppendAll(rows, batch).value;
      && |rows| <= |r| && r[..|rows|] == rows
      && (forall i :: |rows| <= i < |r| ==> r[i] in batch && IdOf(r[i]) !in IdSet(rows))
      && IdSet(r) == IdSet(rows) + IdSet(batch)
    decreases |batch|
  {
    if batch != [] {
      var init, x := batch[..|batch| - 1], batch[|batch| - 1];
      AppendExtends(rows, init);
      var acc := AppendAll(rows, init).value;
      var r := AppendAll(rows, batch).value;
      assert r == AppendOne(acc, x).value;
      assert IdSet(batch) == IdSet(init) + {IdOf(x)} by {
        assert batch == init + [x];
        IdSetSnoc(init, x);
      }
      if IdOf(x) !in IdSet(acc) {
        assert r == acc + [x] && batch == init + [x];
        SnocKeepsNew(rows, acc, init, x);
      } else {
        assert forall y :: y in init ==> y in batch;
      }
    } else {
      assert IdSet(batch) == {};
    }
  }

  /** The rows an append adds stay batch rows with new ids when one more
      such row follows them. */
  lemma SnocKeepsNew(rows: seq<Row>, acc: seq<Row>, init: seq<Row>, x: Row)
    requires |rows| <= |acc| && IdOf(x) !in IdSet(rows)
    requires forall i :: |rows| <= i < |acc| ==> acc[i] in init && IdOf(acc[i]) !in IdSet(rows)
    ensures forall i :: |rows| <= i < |acc + [x]| ==> (acc + [x])[i] in init + [x] && IdOf((acc + [x])[i]) !in IdSet(rows)
  {
    var r := acc + [x];
    forall i | |rows| <= i < |r| ensures r[i] in init + [x] && IdOf(r[i]) !in IdSet(rows) {
      if i < |acc| {
        assert r[i] == acc[i] && acc[i] in init;
      } else {
        assert r[i] == x;
      }
    }
  }

  /** An accepted append keeps the table's constraints. */
  lemma {:induction false} AppendValid(rows: seq<Row>, batch: seq<Row>)
    requires FactsValid(rows) && AppendAll(rows, batch).Some?
    ensures FactsValid(AppendAll(rows, batch).value)
    decreases |batch|
  {
    if batch != [] {
      var init, x := batch[..|batch| - 1], batch[|batch| - 1];
      AppendValid(rows, init);
      var acc := AppendAll(rows, init).value;
      if IdOf(x) !in IdSet(acc) {
        var r := acc + [x];
        forall i, j | 0 <= i < j < |r| ensures IdOf(r[i]) != IdOf(r[j]) && !Collide(r[j], r[i]) {
          assert r[i] == acc[i];
          if j < |acc| {
            assert r[j] == acc[j];
          } else {
            assert IdOf(acc[i]) in IdSet(acc);
            assert !Collide(x, acc[i]);
          }
        }
      }
    }
  }

  /** A batch whose ids are all taken adds nothing and cannot fail. */
  lemma {:induction false} AppendTakenIds(rows: seq<Row>, batch: seq<Row>)
    requires IdSet(batch) <= IdSet(rows)
    ensures AppendAll(rows, batch) == Some(rows)
    decreases |batch|
  {
    if batch != [] {
      var init, x := batch[..|batch| - 1], batch[|batch| - 1];
      assert batch == init + [x];
      IdSetSnoc(init, x);
      AppendTakenIds(rows, init);
    }
  }

  /** Appending the same batch twice leaves the table as appending it once. */
  lemma AppendIdempotent(rows: seq<Row>, batch: seq<Row>)
    ensures AfterAppend(AfterAppend(rows, batch), batch) == AfterAppend(rows, batch)
    ensures AppendStatus(AfterAppend(rows, batch), batch) == if AppendAll(rows, batch).Some? then Inserted(0) else Failed(UniqueViolation)
  {
    if AppendAll(rows, batch).Some? {
      AppendExtends(rows, batch);
      AppendTakenIds(AfterAppend(rows, batch), batch);
    }
  }

  /** Once a prefix of the batch aborts, the whole batch does. */
  lemma {:induction false} AppendAbortStays(rows: seq<Row>, batch: seq<Row>, i: nat)
    requires i <= |batch| && AppendAll(rows, batch[..i]).None?
    ensures AppendAll(rows, batch).None?
    decreases |batch| - i
  {
    if i < |batch| {
      assert batch[..i + 1][..i] == batch[..i];
      AppendAbortStays(rows, batch, i + 1);
    } else {
      assert batch[..i] == batch;
    }
  }

  /** The batch the load step prepares, or why it stops before the append. */
  datatype Prepared = Rejected(error: LoadError) | Batch(rows: seq<Row>)

  /** Lines 125-129 of the step: fetch, parse, derive, arrange. */
  function Prepare(text: Option<string>, sep: char, reader: Reader): (p: Prepared)
    ensures text.None? || text.value == [] ==> p == Rejected(NoText)
    ensures p.Rejected? ==> p.error.NoText? || p.error.ParseFailed? || p.error.MissingColumn? || p.error.NotAString?
    ensures p.Batch? ==> reader(text.value, sep).Some? && |p.rows| == |reader(text.value, sep).value.records|
    ensures p.Batch? <==>
      && text.Some? && text.value != []
      && reader(text.value, sep).Some?
      && TextToDf(reader(text.value, sep).value).Some?
      && var df := TextToDf(reader(text.value, sep).value).value;
      && DeriveError(df).None?
      && "year" in df.columns && "period" in df.columns && "value" in df.columns && "footnote_codes" in df.columns
  {
    if text.None? || text.value == [] then Rejected(NoText)
    else
      match reader(text.value, sep)
      case None => Rejected(ParseFailed)
      case Some(raw) =>
        match TextToDf(raw)
        case None => Rejected(ParseFailed)
        case Some(df) =>
          if DeriveError(df).Some? then Rejected(DeriveError(df).value)
          else Arrange(df)
  }

  /** Line 129, `arrange_data_cols(data, data_cols)` on the derived frame:
      the `data` columns of every row, or a `KeyError` naming the first
      column the frame lacks. */
  function Arrange(df: Table): (p: Prepared)
    requires DeriveError(df).None?
    ensures p.Batch? <==>
      "year" in df.columns && "period" in df.columns && "value" in df.columns && "footnote_codes" in df.columns
    ensures p.Batch? ==> |p.rows| == |df.rows|
    ensures p.Rejected? ==> p.error.MissingColumn?
  {
    ArrangeNeeds(df);
    match Select(Derived(df), DataColumns)
    case None => Rejected(MissingColumn(FirstMissing(DataColumns, Derived(df).columns)))
    case Some(t) => Batch(t.rows)
  }

  /** The header of a published observation file, with its padding. */
  const ObservationHeader: seq<string> := ["series_id   ", "year", "period", "   value", "footnote_codes"]

  /** The same header as the renaming leaves it. */
  const ObservationColumns: seq<string> := ["series_id", "year", "period", "value", "footnote_codes"]

  /** A reader that finds one observation under that header. */
  function OneObservation(text: string, sep: char): Option<RawCsv> {
    Some(RawCsv(ObservationHeader, [[Text("CUSR0000SA0"), Int(2020), Text("M01"), Opaque(0), Null]]))
  }

  /** Renaming acts name by name. */
  lemma StripNamesOf(header: seq<string>, names: seq<string>)
    requires |header| == |names|
    requires forall k :: 0 <= k < |header| ==> Strip(header[k]) == names[k]
    ensures StripNames(header) == names
  {
  }

  /** Names of pairwise different lengths are distinct. */
  lemma DistinctByLength(names: seq<string>)
    requires forall i, j :: 0 <= i < j < |names| ==> |names[i]| != |names[j]|
    ensures Distinct(names)
  {
  }

  lemma ObservationHeaderStripped()
    ensures StripNames(ObservationHeader) == ObservationColumns
  {
    ObservationPaddedNames();
    ObservationBareNames();
    StripNamesOf(ObservationHeader, ObservationColumns);
  }

  /** `series_id` and `value` come padded; renaming drops the padding. */
  lemma ObservationPaddedNames()
    ensures Strip(ObservationHeader[0]) == ObservationColumns[0]
    ensures Strip(ObservationHeader[3]) == ObservationColumns[3]
  {
    var h, n := ObservationHeader, ObservationColumns;
    assert h[0] == [] + n[0] + "   " && h[3] == "   " + n[3] + [];
    WordStripped(n[0]);
    WordStripped(n[3]);
    StripUnique([], n[0], "   ");
    StripUnique("   ", n[3], []);
  }

  lemma ObservationBareNames()
    ensures Strip(ObservationHeader[1]) == ObservationColumns[1]
    ensures Strip(ObservationHeader[2]) == ObservationColumns[2]
    ensures Strip(ObservationHeader[4]) == ObservationColumns[4]
  {
    var h, n := ObservationHeader, ObservationColumns;
    assert h[1] == [] + n[1] + [] && h[2] == [] + n[2] + [] && h[4] == [] + n[4] + [];
    WordStripped(n[1]);
    WordStripped(n[2]);
    WordStripped(n[4]);
    StripUnique([], n[1], []);
    StripUnique([], n[2], []);
    StripUnique([], n[4], []);
  }

  lemma ObservationColumnsDistinct()
    ensures Distinct(ObservationColumns)
  {
    var n := ObservationColumns;
    assert |n[0]| == 9 && |n[1]| == 4 && |n[2]| == 6 && |n[3]| == 5 && |n[4]| == 14;
    DistinctByLength(n);
  }

  /** Records under a header that renames to the observation columns make a
      frame with every series id a string and every column the file must
      supply, as long as no record is wider than the header and every
      record starts with a string. */
  lemma ObservationFrame(header: seq<string>, records: seq<seq<Cell>>)
    requires StripNames(header) == ObservationColumns
    requires forall k :: 0 <= k < |records| ==> 1 <= |records[k]| <= |header| && records[k][0].Text?
    ensures TextToDf(RawCsv(header, records)).Some?
    ensures var df := TextToDf(RawCsv(header, records)).value;
      && DeriveError(df).None?
      && "year" in df.columns && "period" in df.columns && "value" in df.columns && "footnote_codes" in df.columns
  {
    var names := ObservationColumns;
    ObservationColumnsDistinct();
    var df := TextToDf(RawCsv(header, records)).value;
    assert df.columns == names;
    assert names[0] == "series_id" && names[1] == "year" && names[2] == "period";
    assert names[3] == "value" && names[4] == "footnote_codes";
    forall k | 0 <= k < |df.rows| ensures Get(df.rows[k], "series_id").Text? {
      assert df.rows[k][names[0]] == records[k][0];
    }
  }

  /** Such a file reaches the append with one prepared row per record. */
  lemma ObservationFileBatch(text: string, sep: char, reader: Reader, header: seq<string>, records: seq<seq<Cell>>)
    requires text != [] && reader(text, sep) == Some(RawCsv(header, records))
    requires StripNames(header) == ObservationColumns
    requires forall k :: 0 <= k < |records| ==> 1 <= |records[k]| <= |header| && records[k][0].Text?
    ensures Prepare(Some(text), sep, reader).Batch?
    ensures |Prepare(Some(text), sep, reader).rows| == |records|
  {
    ObservationFrame(header, records);
  }

  /** The one-observation file reaches the append with its one row. */
  lemma OneObservationBatch(text: string)
    requires text != []
    ensures Prepare(Some(text), '\t', OneObservation).Batch?
    ensures |Prepare(Some(text), '\t', OneObservation).rows| == 1
  {
    ObservationHeaderStripped();
    ObservationFileBatch(text, '\t', OneObservation, ObservationHeader,
                         [[Text("CUSR0000SA0"), Int(2020), Text("M01"), Opaque(0), Null]]);
  }

  /** The `data` table after `insert_data_table` has read `text`. */
  function AfterFactLoad(rows: seq<Row>, text: Option<string>, sep: char, reader: Reader): (r: seq<Row>)
    ensures rows <= r
    ensures Prepare(text, sep, reader).Rejected? ==> r == rows
  {
    match Prepare(text, sep, reader)
    case Rejected(_) => rows
    case Batch(b) => AfterAppend(rows, b)
  }

  function FactLoadStatus(rows: seq<Row>, text: Option<string>, sep: char, reader: Reader): (st: Status)
    ensures text.None? || text.value == [] ==> st == Failed(NoText)
    ensures st.Failed? ==> AfterFactLoad(rows, text, sep, reader) == rows
    ensures st.Inserted? ==> st.count == |AfterFactLoad(rows, text, sep, reader)| - |rows|
  {
    match Prepare(text, sep, reader)
    case Rejected(e) => Failed(e)
    case Batch(b) => AppendStatus(rows, b)
  }

  /** Of the `data` columns, the derivation supplies the id and the five
      parts; arranging succeeds exactly when the file supplies the other four. */
  lemma ArrangeNeeds(df: Table)
    requires DeriveError(df).None?
    ensures Select(Derived(df), DataColumns).Some? <==>
      "year" in df.columns && "period" in df.columns && "value" in df.columns && "footnote_codes" in df.columns
  {
    DerivedColumns(df);
    SelectDataColumns(Derived(df), df.columns);
  }

  lemma SelectDataColumns(t: Table, base: seq<string>)
    requires "series_id" in base
    requires forall c :: c in t.columns <==> c in base || c in DerivedNames
    ensures Select(t, DataColumns).Some? <==>
      "year" in base && "period" in base && "value" in base && "footnote_codes" in base
  {
    var cols := DataColumns;
    assert cols[0] == DerivedNames[0] && cols[2] == DerivedNames[1] && cols[3] == DerivedNames[2];
    assert cols[4] == DerivedNames[3] && cols[5] == DerivedNames[4] && cols[6] == DerivedNames[5];
    var fromFile := forall i :: 7 <= i < |cols| ==> cols[i] in base;
    if fromFile {
      forall i | 0 <= i < |cols| ensures cols[i] in t.columns {
        if i == 1 {
        } else if i < 7 {
          assert cols[i] in DerivedNames;
        }
      }
    } else {
      var i :| 7 <= i < |cols| && cols[i] !in base;
      assert cols[i] !in DerivedNames;
      assert cols[i] !in t.columns;
    }
    assert fromFile <==> "year" in base && "period" in base && "value" in base && "footnote_codes" in base by {
      assert cols[7] == "year" && cols[8] == "period" && cols[9] == "value" && cols[10] == "footnote_codes";
    }
  }

  /** An arranged row has exactly the `data` columns. */
  lemma ArrangedKeys(df: Table, k: nat)
    requires WellFormed(df) && DeriveError(df).None? && k < |df.rows|
    requires Select(Derived(df), DataColumns).Some?
    ensures Select(Derived(df), DataColumns).value.rows[k].Keys == ColumnSet(DataColumns)
  {
    DerivedWellFormed(df);
  }

  /** An arranged row carries its number and the parts of its own series id. */
  lemma ArrangedParts(df: Table, k: nat)
    requires DeriveError(df).None? && k < |df.rows|
    requires Select(Derived(df), DataColumns).Some?
    ensures var row := Select(Derived(df), DataColumns).value.rows[k];
      && Get(row, "series_id") == Text(SeriesId(df, k))
      && var p := Decompose(SeriesId(df, k));
      && Get(row, "id") == Int(k + 1) && Get(row, "prefix") == Text(p.prefix)
      && Get(row, "seasonal") == Text(p.seasonal) && Get(row, "periodicity") == Text(p.periodicity)
      && Get(row, "area_code") == Text(p.areaCode) && Get(row, "item_code") == Text(p.itemCode)
  {
    var d := Derived(df);
    DerivedRowSpec(df, k);
    SeriesIdNotDerived();
    SelectKeepsParts(d, k);
    CarriedParts(Select(d, DataColumns).value.rows[k], d.rows[k], SeriesId(df, k), k);
  }

  /** `get_data_cols` never writes `series_id`. */
  lemma SeriesIdNotDerived()
    ensures "series_id" !in DerivedNames
  {
    assert DerivedNames[0] != "series_id" && DerivedNames[1] != "series_id" && DerivedNames[2] != "series_id";
    assert DerivedNames[3] != "series_id" && DerivedNames[4] != "series_id" && DerivedNames[5] != "series_id";
  }

  /** A row that agrees with a derived row on the series id, the id and the
      parts carries that row's number and parts. */
  lemma CarriedParts(row: Row, drow: Row, sid: string, k: nat)
    requires Get(drow, "series_id") == Text(sid)
    requires var p := Decompose(sid);
      && Get(drow, "id") == Int(k + 1) && Get(drow, "prefix") == Text(p.prefix)
      && Get(drow, "seasonal") == Text(p.seasonal) && Get(drow, "periodicity") == Text(p.periodicity)
      && Get(drow, "area_code") == Text(p.areaCode) && Get(drow, "item_code") == Text(p.itemCode)
    requires && Get(row, "series_id") == Get(drow, "series_id") && Get(row, "id") == Get(drow, "id")
      && Get(row, "prefix") == Get(drow, "prefix") && Get(row, "seasonal") == Get(drow, "seasonal")
      && Get(row, "periodicity") == Get(drow, "periodicity")
      && Get(row, "area_code") == Get(drow, "area_code") && Get(row, "item_code") == Get(drow, "item_code")
    ensures && Get(row, "series_id") == Text(sid)
      && var p := Decompose(sid);
      && Get(row, "id") == Int(k + 1) && Get(row, "prefix") == Text(p.prefix)
      && Get(row, "seasonal") == Text(p.seasonal) && Get(row, "periodicity") == Text(p.periodicity)
      && Get(row, "area_code") == Text(p.areaCode) && Get(row, "item_code") == Text(p.itemCode)
  {
  }

  /** The cells of the derived columns and of `series_id` survive arranging. */
  lemma SelectKeepsParts(d: Table, k: nat)
    requires Select(d, DataColumns).Some? && k < |d.rows|
    ensures var row := Select(d, DataColumns).value.rows[k];
      && Get(row, "series_id") == Get(d.rows[k], "series_id") && Get(row, "id") == Get(d.rows[k], "id")
      && Get(row, "prefix") == Get(d.rows[k], "prefix") && Get(row, "seasonal") == Get(d.rows[k], "seasonal")
      && Get(row, "periodicity") == Get(d.rows[k], "periodicity")
      && Get(row, "area_code") == Get(d.rows[k], "area_code") && Get(row, "item_code") == Get(d.rows[k], "item_code")
  {
    var row := Select(d, DataColumns).value.rows[k];
    var names := ["series_id", "id", "prefix", "seasonal", "periodicity", "area_code", "item_code"];
    assert forall c :: c in names ==> c in DataColumns;
    forall c | c in names ensures Get(row, c) == Get(d.rows[k], c) {
      if c in d.rows[k] {
        SelectGet(d, DataColumns, k, c);
      } else {
        assert c !in row;
      }
    }
  }

  /** A prepared batch is the arranged derived frame of what the reader
      returned. */
  lemma PreparedFrom(text: Option<string>, sep: char, reader: Reader)
    requires Prepare(text, sep, reader).Batch?
    ensures reader(text.value, sep).Some? && TextToDf(reader(text.value, sep).value).Some?
    ensures var df := TextToDf(reader(text.value, sep).value).value;
      && WellFormed(df) && DeriveError(df).None?
      && Select(Derived(df), DataColumns).Some?
      && Prepare(text, sep, reader).rows == Select(Derived(df), DataColumns).value.rows
      && |df.rows| == |Prepare(text, sep, reader).rows|
  {
  }

  /** Every prepared row has exactly the `data` columns, is numbered by its
      position from 1, and carries the decomposition of its own series id. */
  lemma PreparedRows(text: Option<string>, sep: char, reader: Reader)
    requires Prepare(text, sep, reader).Batch?
    ensures var b := Prepare(text, sep, reader).rows;
      forall k :: 0 <= k < |b| ==>
        && b[k].Keys == ColumnSet(DataColumns)
        && Get(b[k], "series_id").Text?
        && var p := Decompose(Get(b[k], "series_id").s);
        && Get(b[k], "id") == Int(k + 1) && Get(b[k], "prefix") == Text(p.prefix)
        && Get(b[k], "seasonal") == Text(p.seasonal) && Get(b[k], "periodicity") == Text(p.periodicity)
        && Get(b[k], "area_code") == Text(p.areaCode) && Get(b[k], "item_code") == Text(p.itemCode)
  {
    PreparedFrom(text, sep, reader);
    var df := TextToDf(reader(text.value, sep).value).value;
    forall k | 0 <= k < |Prepare(text, sep, reader).rows| {
      ArrangedKeys(df, k);
    }
    forall k | 0 <= k < |Prepare(text, sep, reader).rows| {
      ArrangedParts(df, k);
    }
  }

  /** The prepared rows are numbered 1..n. */
  lemma PreparedIds(text: Option<string>, sep: char, reader: Reader)
    requires Prepare(text, sep, reader).Batch?
    ensures var b := Prepare(text, sep, reader).rows;
      forall k :: 0 <= k < |b| ==> IdOf(b[k]) == Int(k + 1)
  {
    PreparedFrom(text, sep, reader);
    var df := TextToDf(reader(text.value, sep).value).value;
    forall k | 0 <= k < |Prepare(text, sep, reader).rows| {
      ArrangedParts(df, k);
    }
  }

  /** The step is skipped with the table unchanged when the fetch gave no
      text, and so is the whole batch when one row clashes; a file with a
      header and no data row appends nothing either. */
  lemma FactLoadUnchanged(rows: seq<Row>, text: Option<string>, sep: char, reader: Reader)
    ensures text.None? || text.value == [] || FactLoadStatus(rows, text, sep, reader).Failed? ==>
              AfterFactLoad(rows, text, sep, reader) == rows
    ensures Prepare(text, sep, reader) == Batch([]) ==> AfterFactLoad(rows, text, sep, reader) == rows
  {
  }

  /** Loading the same file twice leaves the table as loading it once. */
  lemma FactLoadIdempotent(rows: seq<Row>, text: Option<string>, sep: char, reader: Reader)
    ensures AfterFactLoad(AfterFactLoad(rows, text, sep, reader), text, sep, reader)
         == AfterFactLoad(rows, text, sep, reader)
  {
    if Prepare(text, sep, reader).Batch? {
      AppendIdempotent(rows, Prepare(text, sep, reader).rows);
    }
  }

  /** A later run reuses the ids 1..n of its own file: when every id the new
      file gives out is already stored, nothing at all is stored, whatever
      observations the file now holds. */
  lemma ReloadIgnoresTakenIds(rows: seq<Row>, text: Option<string>, sep: char, reader: Reader)
    requires Prepare(text, sep, reader).Batch?
    requires forall n :: 1 <= n <= |Prepare(text, sep, reader).rows| ==> Int(n) in IdSet(rows)
    ensures AfterFactLoad(rows, text, sep, reader) == rows
    ensures FactLoadStatus(rows, text, sep, reader) == Inserted(0)
  {
    var b := Prepare(text, sep, reader).rows;
    PreparedIds(text, sep, reader);
    forall x | x in IdSet(b) ensures x in IdSet(rows) {
      var k :| 0 <= k < |b| && IdOf(b[k]) == x;
      assert x == Int(k + 1);
    }
    AppendTakenIds(rows, b);
  }

  /** The `data` table. */
  class FactTable {
    var rows: seq<Row>

    ghost predicate Valid()
      reads this
    {
      FactsValid(rows)
    }

    constructor ()
      ensures Valid() && rows == []
    {
      rows := [];
    }

    /** `data.to_sql(table, conn, if_exists='append', index=False)`. */
    method Append(batch: seq<Row>) returns (status: Status)
      requires Valid()
      modifies this
      ensures Valid()
      ensures rows == AfterAppend(old(rows), batch)
      ensures status == AppendStatus(old(rows), batch)
    {
      var saved := rows;
      var ids := IdSet(rows);
      var i := 0;
      while i < |batch|
        invariant 0 <= i <= |batch|
        invariant AppendAll(saved, batch[..i]) == Some(rows)
        invariant ids == IdSet(rows)
      {
        var r := batch[i];
        AppendAllStep(saved, batch, i);
        if IdOf(r) !in ids {
          if ClashesWith(rows, r) {
            AppendAbortStays(saved, batch, i + 1);
            rows := saved;
            return Failed(UniqueViolation);
          }
          rows := rows + [r];
          ids := ids + {IdOf(r)};
        }
        i := i + 1;
      }
      assert batch[..i] == batch;
      AppendValid(saved, batch);
      return Inserted(|rows| - |saved|);
    }

    /** `insert_data_table(conn, url, 'data', data_cols, separator)` for the
        text the fetch returned. */
    method InsertDataTable(text: Option<string>, sep: char, reader: Reader) returns (status: Status)
      requires Valid()
      modifies this
      ensures Valid()
      ensures rows == AfterFactLoad(old(rows), text, sep, reader)
      ensures status == FactLoadStatus(old(rows), text, sep, reader)
    {
      if text.None? || text.value == [] {
        return Failed(NoText);
      }
      var raw := reader(text.value, sep);
      if raw.None? {
        return Failed(ParseFailed);
      }
      var df := TextToDf(raw.value);
      if df.None? {
        return Failed(ParseFailed);
      }
      var frame := new Frame(df.value);
      var err := frame.GetDataCols();
      if err.Some? {
        return Failed(err.value);
      }
      var arranged := Select(frame.Snapshot(), DataColumns);
      if arranged.None? {
        return Failed(MissingColumn(FirstMissing(DataColumns, frame.columns)));
      }
      status := Append(arranged.value.rows);
    }
  }
}
