/** The series-id decomposer (`get_data_cols`) and the DataFrame it updates
    in place. A BLS CPI series id such as `CUSR0000SA0` is cut at fixed
    offsets into survey prefix, seasonal flag, periodicity, area code and
    item code; the rows are also numbered from 1. */
module Series {
  import opened PyStr
  import opened Values

  datatype SeriesParts = SeriesParts(prefix: string, seasonal: string, periodicity: string,
                                     areaCode: string, itemCode: string)

  /** The five slicing lambdas: `x[:2]`, `x[2:3]`, `x[3:4]`, `x[4:8]` and
      `x[8:].strip()`. */
  function PrefixOf(x: string): (r: string)
    ensures |r| == Min(2, |x|) && r <= x
  {
    Slice(x, 0, 2)
  }

  function SeasonalOf(x: string): (r: string)
    ensures |x| >= 3 ==> r == [x[2]]
    ensures |x| < 3 ==> r == []
  {
    Slice(x, 2, 3)
  }

  function PeriodicityOf(x: string): (r: string)
    ensures |x| >= 4 ==> r == [x[3]]
    ensures |x| < 4 ==> r == []
  {
    Slice(x, 3, 4)
  }

  function AreaCodeOf(x: string): (r: string)
    ensures |r| == Min(8, |x|) - Min(4, |x|)
    ensures |x| >= 4 ==> x[..4] + r == x[..Min(8, |x|)]
  {
    Slice(x, 4, 8)
  }

  function ItemCodeOf(x: string): (r: string)
    ensures Stripped(r) && |r| <= |x| - Min(8, |x|)
    ensures |x| <= 8 ==> r == []
  {
    Strip(SliceFrom(x, 8))
  }

  /** All five parts of one series id. Short ids give short (possibly empty)
      parts, never an error. */
  function Decompose(sid: string): (p: SeriesParts)
    ensures p.prefix + p.seasonal + p.periodicity + p.areaCode == sid[..Min(8, |sid|)]
    ensures |p.prefix| == Min(2, |sid|) && |p.seasonal| == Min(3, |sid|) - Min(2, |sid|)
    ensures |p.periodicity| == Min(4, |sid|) - Min(3, |sid|) && |p.areaCode| == Min(8, |sid|) - Min(4, |sid|)
    ensures |sid| >= 8 ==> |p.prefix| == 2 && |p.seasonal| == 1 && |p.periodicity| == 1 && |p.areaCode| == 4
    ensures |sid| <= 8 ==> p.itemCode == []
  {
    SliceConcat(sid, 0, 2, 3);
    SliceConcat(sid, 0, 3, 4);
    SliceConcat(sid, 0, 4, 8);
    assert Slice(sid, 0, 8) == sid[..Min(8, |sid|)];
    SeriesParts(PrefixOf(sid), SeasonalOf(sid), PeriodicityOf(sid), AreaCodeOf(sid), ItemCodeOf(sid))
  }

  /** The item code is what follows the first 8 characters, without the
      whitespace around it. */
  lemma ItemCodeIsTrimmedTail(sid: string, a: string, item: string, b: string)
    requires |sid| >= 8 && sid[8..] == a + item + b
    requires AllSpace(a) && AllSpace(b) && Stripped(item)
    ensures Decompose(sid).itemCode == item
  {
    assert SliceFrom(sid, 8) == sid[8..];
    StripUnique(a, item, b);
  }

  /** The item code never starts or ends with whitespace. */
  lemma ItemCodeStripped(sid: string)
    ensures Stripped(Decompose(sid).itemCode)
  {
  }

  /** The all-items, U.S. city average series of the BLS tables. */
  lemma DecomposeAllItemsSeries()
    ensures Decompose("CUSR0000SA0") == SeriesParts("CU", "S", "R", "0000", "SA0")
  {
    DecomposeFixed("CUSR0000SA0", "CU", 'S', 'R', "0000", "SA0");
  }

  /** A series id made of parts of the fixed lengths and an item code with
      no whitespace at its ends decomposes into exactly those parts. */
  lemma DecomposeFixed(sid: string, prefix: string, seasonal: char, periodicity: char, area: string, item: string)
    requires sid == prefix + [seasonal] + [periodicity] + area + item
    requires |prefix| == 2 && |area| == 4 && Stripped(item)
    ensures Decompose(sid) == SeriesParts(prefix, [seasonal], [periodicity], area, item)
  {
    assert sid[..2] == prefix && sid[2] == seasonal && sid[3] == periodicity;
    assert sid[4..8] == area && sid[8..] == item;
    StripUnique([], item, []);
    assert [] + item + [] == item;
  }

  /** The same series id with the blank padding the data file carries after it. */
  lemma DecomposePaddedSeries()
    ensures Decompose("CUSR0000SA0      ").itemCode == "SA0"
  {
    PaddedItemCode("CUSR0000SA0      ", "CUSR0000", "SA0", "      ");
  }

  /** Whitespace after the item code does not reach it. */
  lemma PaddedItemCode(sid: string, head: string, item: string, pad: string)
    requires sid == head + item + pad && |head| == 8 && Stripped(item) && AllSpace(pad)
    ensures Decompose(sid).itemCode == item
  {
    assert sid[8..] == [] + item + pad;
    ItemCodeIsTrimmedTail(sid, [], item, pad);
  }

  /** The columns `get_data_cols` writes, in the order it writes them. */
  const DerivedNames: seq<string> := ["id", "prefix", "seasonal", "periodicity", "area_code", "item_code"]

  /** `data.index + 1` over the 0-based index `read_csv` produces. */
  function Ids(n: nat): (r: seq<Cell>)
    ensures |r| == n
  {
    seq(n, k requires 0 <= k < n => Int(k + 1))
  }

  /** The table after its first statement, `data['id'] = data.index + 1`. */
  function WithIds(t: Table): (r: Table)
    ensures |r.rows| == |t.rows| && "id" in r.columns
    ensures forall k :: 0 <= k < |r.rows| ==> "id" in r.rows[k] && r.rows[k]["id"] == Int(k + 1)
  {
    WithColumn(t, "id", Ids(|t.rows|))
  }

  /** What stops `get_data_cols`: no `series_id` column (KeyError), or a
      `series_id` cell that is not a string (TypeError in the lambda). */
  function DeriveError(t: Table): (e: Option<LoadError>)
    ensures e.None? <==> "series_id" in t.columns && forall k :: 0 <= k < |t.rows| ==> Get(t.rows[k], "series_id").Text?
    ensures "series_id" !in t.columns ==> e == Some(MissingColumn("series_id"))
    ensures e.Some? ==> e.value == MissingColumn("series_id") || e.value == NotAString
  {
    if "series_id" !in t.columns then Some(MissingColumn("series_id"))
    else if exists k :: 0 <= k < |t.rows| && !Get(t.rows[k], "series_id").Text? then Some(NotAString)
    else None
  }

  function SeriesId(t: Table, k: nat): string
    requires k < |t.rows| && Get(t.rows[k], "series_id").Text?
  {
    Get(t.rows[k], "series_id").s
  }

  /** `data['series_id'].apply(f)` once every series id is a string. */
  function PartColumn(t: Table, f: string -> string): (r: seq<Cell>)
    requires DeriveError(t).None?
    ensures |r| == |t.rows|
    ensures forall k :: 0 <= k < |r| ==> r[k].Text?
  {
    seq(|t.rows|, k requires 0 <= k < |t.rows| => Text(f(SeriesId(t, k))))
  }

  /** The table `get_data_cols` returns: its six column assignments in order. */
  function Derived(t: Table): (r: Table)
    requires DeriveError(t).None?
    ensures |r.rows| == |t.rows|
    ensures forall c :: c in t.columns ==> c in r.columns
  {
    var t1 := WithIds(t);
    var t2 := WithColumn(t1, "prefix", PartColumn(t, PrefixOf));
    var t3 := WithColumn(t2, "seasonal", PartColumn(t, SeasonalOf));
    var t4 := WithColumn(t3, "periodicity", PartColumn(t, PeriodicityOf));
    var t5 := WithColumn(t4, "area_code", PartColumn(t, AreaCodeOf));
    WithColumn(t5, "item_code", PartColumn(t, ItemCodeOf))
  }

  /** Row `k` with the cells it gains: its 1-based number and the parts of
      its series id. */
  function ExtendRow(row: Row, k: nat, sid: string): Row {
    row["id" := Int(k + 1)]["prefix" := Text(PrefixOf(sid))]["seasonal" := Text(SeasonalOf(sid))]
       ["periodicity" := Text(PeriodicityOf(sid))]["area_code" := Text(AreaCodeOf(sid))]
       ["item_code" := Text(ItemCodeOf(sid))]
  }

  /** The derived table has the input's columns and the derived names. */
  lemma DerivedColumns(t: Table)
    requires DeriveError(t).None?
    ensures forall c :: c in Derived(t).columns <==> c in t.columns || c in DerivedNames
  {
    var t1 := WithIds(t);
    var t2 := WithColumn(t1, "prefix", PartColumn(t, PrefixOf));
    var t3 := WithColumn(t2, "seasonal", PartColumn(t, SeasonalOf));
    var t4 := WithColumn(t3, "periodicity", PartColumn(t, PeriodicityOf));
    var t5 := WithColumn(t4, "area_code", PartColumn(t, AreaCodeOf));
    WithColumnColumns(t, "id", Ids(|t.rows|));
    WithColumnColumns(t1, "prefix", PartColumn(t, PrefixOf));
    WithColumnColumns(t2, "seasonal", PartColumn(t, SeasonalOf));
    WithColumnColumns(t3, "periodicity", PartColumn(t, PeriodicityOf));
    WithColumnColumns(t4, "area_code", PartColumn(t, AreaCodeOf));
    WithColumnColumns(t5, "item_code", PartColumn(t, ItemCodeOf));
  }

  lemma DerivedWellFormed(t: Table)
    requires DeriveError(t).None? && WellFormed(t)
    ensures WellFormed(Derived(t))
  {
    var t1 := WithIds(t);
    var t2 := WithColumn(t1, "prefix", PartColumn(t, PrefixOf));
    var t3 := WithColumn(t2, "seasonal", PartColumn(t, SeasonalOf));
    var t4 := WithColumn(t3, "periodicity", PartColumn(t, PeriodicityOf));
    var t5 := WithColumn(t4, "area_code", PartColumn(t, AreaCodeOf));
    WithColumnWellFormed(t, "id", Ids(|t.rows|));
    WithColumnWellFormed(t1, "prefix", PartColumn(t, PrefixOf));
    WithColumnWellFormed(t2, "seasonal", PartColumn(t, SeasonalOf));
    WithColumnWellFormed(t3, "periodicity", PartColumn(t, PeriodicityOf));
    WithColumnWellFormed(t4, "area_code", PartColumn(t, AreaCodeOf));
    WithColumnWellFormed(t5, "item_code", PartColumn(t, ItemCodeOf));
  }

  /** Column by column and row by row agree: row `k` of the derived table is
      row `k` of the input extended by its number and its series-id parts. */
  lemma DerivedRow(t: Table, k: nat)
    requires DeriveError(t).None? && k < |t.rows|
    ensures |Derived(t).rows| == |t.rows|
    ensures Derived(t).rows[k] == ExtendRow(t.rows[k], k, SeriesId(t, k))
  {
    var sid := SeriesId(t, k);
    var t1 := WithIds(t);
    var t2 := WithColumn(t1, "prefix", PartColumn(t, PrefixOf));
    var t3 := WithColumn(t2, "seasonal", PartColumn(t, SeasonalOf));
    var t4 := WithColumn(t3, "periodicity", PartColumn(t, PeriodicityOf));
    var t5 := WithColumn(t4, "area_code", PartColumn(t, AreaCodeOf));
    assert t1.rows[k] == t.rows[k]["id" := Int(k + 1)];
    assert t2.rows[k] == t1.rows[k]["prefix" := Text(PrefixOf(sid))];
    assert t3.rows[k] == t2.rows[k]["seasonal" := Text(SeasonalOf(sid))];
    assert t4.rows[k] == t3.rows[k]["periodicity" := Text(PeriodicityOf(sid))];
    assert t5.rows[k] == t4.rows[k]["area_code" := Text(AreaCodeOf(sid))];
  }

  lemma ExtendRowSpec(row: Row, k: nat, sid: string)
    ensures ExtendRow(row, k, sid).Keys == row.Keys + ColumnSet(DerivedNames)
    ensures var p := Decompose(sid);
      var r := ExtendRow(row, k, sid);
      Get(r, "id") == Int(k + 1) && Get(r, "prefix") == Text(p.prefix)
      && Get(r, "seasonal") == Text(p.seasonal) && Get(r, "periodicity") == Text(p.periodicity)
      && Get(r, "area_code") == Text(p.areaCode) && Get(r, "item_code") == Text(p.itemCode)
    ensures forall c :: c in row && c !in DerivedNames ==> Get(ExtendRow(row, k, sid), c) == row[c]
  {
    UpdatedKeys(row, Int(k + 1), Text(PrefixOf(sid)), Text(SeasonalOf(sid)), Text(PeriodicityOf(sid)),
                Text(AreaCodeOf(sid)), Text(ItemCodeOf(sid)));
    ExtendRowParts(row, k, sid);
  }

  lemma UpdatedKeys(row: Row, v1: Cell, v2: Cell, v3: Cell, v4: Cell, v5: Cell, v6: Cell)
    ensures row["id" := v1]["prefix" := v2]["seasonal" := v3]["periodicity" := v4]["area_code" := v5]
               ["item_code" := v6].Keys == row.Keys + ColumnSet(DerivedNames)
    ensures forall c :: c in row && c !in DerivedNames ==>
              row["id" := v1]["prefix" := v2]["seasonal" := v3]["periodicity" := v4]["area_code" := v5]
                 ["item_code" := v6][c] == row[c]
  {
    assert ColumnSet(DerivedNames) == {"id", "prefix", "seasonal", "periodicity", "area_code", "item_code"};
  }

  lemma ExtendRowParts(row: Row, k: nat, sid: string)
    ensures var r := ExtendRow(row, k, sid);
      Get(r, "id") == Int(k + 1) && Get(r, "prefix") == Text(PrefixOf(sid))
      && Get(r, "seasonal") == Text(SeasonalOf(sid)) && Get(r, "periodicity") == Text(PeriodicityOf(sid))
      && Get(r, "area_code") == Text(AreaCodeOf(sid)) && Get(r, "item_code") == Text(ItemCodeOf(sid))
  {
  }

  lemma DerivedRowSpec(t: Table, k: nat)
    requires DeriveError(t).None? && k < |t.rows|
    ensures var p := Decompose(SeriesId(t, k));
      var row := Derived(t).rows[k];
      Get(row, "id") == Int(k + 1) && Get(row, "prefix") == Text(p.prefix)
      && Get(row, "seasonal") == Text(p.seasonal) && Get(row, "periodicity") == Text(p.periodicity)
      && Get(row, "area_code") == Text(p.areaCode) && Get(row, "item_code") == Text(p.itemCode)
    ensures forall c :: c in t.rows[k] && c !in DerivedNames ==> Get(Derived(t).rows[k], c) == t.rows[k][c]
  {
    DerivedRow(t, k);
    ExtendRowSpec(t.rows[k], k, SeriesId(t, k));
  }

  /** The derived table keeps every row, numbers them 1..n in order, gives
      each the decomposition of its own series id, keeps every other cell,
      and stays well formed. */
  lemma DerivedSpec(t: Table)
    requires DeriveError(t).None?
    ensures |Derived(t).rows| == |t.rows|
    ensures WellFormed(t) ==> WellFormed(Derived(t))
    ensures forall k :: 0 <= k < |t.rows| ==>
      var p := Decompose(SeriesId(t, k));
      var row := Derived(t).rows[k];
      Get(row, "id") == Int(k + 1) && Get(row, "prefix") == Text(p.prefix)
      && Get(row, "seasonal") == Text(p.seasonal) && Get(row, "periodicity") == Text(p.periodicity)
      && Get(row, "area_code") == Text(p.areaCode) && Get(row, "item_code") == Text(p.itemCode)
    ensures forall k, c :: 0 <= k < |t.rows| && c in t.rows[k] && c !in DerivedNames ==>
      Get(Derived(t).rows[k], c) == t.rows[k][c]
  {
    if WellFormed(t) {
      DerivedWellFormed(t);
    }
    forall k | 0 <= k < |t.rows| {
      DerivedRowSpec(t, k);
    }
  }

  /** A pandas DataFrame that is updated in place. */
  class Frame {
    var columns: seq<string>
    var rows: seq<Row>

    function Snapshot(): Table
      reads this
    {
      Table(columns, rows)
    }

    constructor (t: Table)
      ensures Snapshot() == t
    {
      columns := t.columns;
      rows := t.rows;
    }

    /** `data[name] = vals` */
    method SetColumn(name: string, vals: seq<Cell>)
      requires |vals| == |rows|
      modifies this
      ensures Snapshot() == WithColumn(old(Snapshot()), name, vals)
    {
      var t := WithColumn(Snapshot(), name, vals);
      columns, rows := t.columns, t.rows;
    }

    /** `data['series_id'].apply(f)`: `f` applied to every series id in row
        order; the first cell that is not a string stops it (`None`). */
    method ApplyToSeriesIds(f: string -> string) returns (r: Option<seq<Cell>>)
      ensures r.Some? <==> forall k :: 0 <= k < |rows| ==> Get(rows[k], "series_id").Text?
      ensures r.Some? ==> |r.value| == |rows|
      ensures r.Some? ==> forall k :: 0 <= k < |rows| ==> r.value[k] == Text(f(Get(rows[k], "series_id").s))
    {
      var out: seq<Cell> := [];
      var i := 0;
      while i < |rows|
        invariant 0 <= i <= |rows| && |out| == i
        invariant forall k :: 0 <= k < i ==> Get(rows[k], "series_id").Text?
        invariant forall k :: 0 <= k < i ==> out[k] == Text(f(Get(rows[k], "series_id").s))
      {
        var x := Get(rows[i], "series_id");
        if !x.Text? {
          return None;
        }
        out := out + [Text(f(x.s))];
        i := i + 1;
      }
      return Some(out);
    }

    /** `get_data_cols(data)`: numbers the rows, then adds the five parts of
        the series id as columns. On failure the `id` column has already
        been written. */
    method GetDataCols() returns (err: Option<LoadError>)
      modifies this
      ensures err == DeriveError(old(Snapshot()))
      ensures err.None? ==> Snapshot() == Derived(old(Snapshot()))
      ensures err.Some? ==> Snapshot() == WithIds(old(Snapshot()))
    {
      ghost var t := Snapshot();
      SetColumn("id", Ids(|rows|));
      SeriesIdsKept(t, "id", Ids(|t.rows|));
      if "series_id" !in columns {
        return Some(MissingColumn("series_id"));
      }
      var prefix := ApplyToSeriesIds(PrefixOf);
      if prefix.None? {
        return Some(NotAString);
      }
      WritePart(t, "prefix", PrefixOf, prefix.value);
      var seasonal := ApplyToSeriesIds(SeasonalOf);
      WritePart(t, "seasonal", SeasonalOf, seasonal.value);
      var periodicity := ApplyToSeriesIds(PeriodicityOf);
      WritePart(t, "periodicity", PeriodicityOf, periodicity.value);
      var area := ApplyToSeriesIds(AreaCodeOf);
      WritePart(t, "area_code", AreaCodeOf, area.value);
      var item := ApplyToSeriesIds(ItemCodeOf);
      WritePart(t, "item_code", ItemCodeOf, item.value);
      err := None;
    }

    /** `data[name] = vals` for a column `vals` that `apply` computed from the
        series ids, which are those of `t`. */
    method WritePart(ghost t: Table, name: string, f: string -> string, vals: seq<Cell>)
      requires DeriveError(t).None? && name != "series_id"
      requires |rows| == |t.rows|
      requires forall k :: 0 <= k < |rows| ==> Get(rows[k], "series_id") == Get(t.rows[k], "series_id")
      requires |vals| == |rows|
      requires forall k :: 0 <= k < |rows| ==> vals[k] == Text(f(Get(rows[k], "series_id").s))
      modifies this
      ensures Snapshot() == WithColumn(old(Snapshot()), name, PartColumn(t, f))
      ensures |rows| == |t.rows|
      ensures forall k :: 0 <= k < |rows| ==> Get(rows[k], "series_id") == Get(t.rows[k], "series_id")
    {
      forall k | 0 <= k < |vals| ensures vals[k] == PartColumn(t, f)[k] {
        assert Get(rows[k], "series_id") == Get(t.rows[k], "series_id");
        assert vals[k] == Text(f(SeriesId(t, k)));
      }
      assert vals == PartColumn(t, f);
      ghost var before := Snapshot();
      SetColumn(name, vals);
      SeriesIdsKept(before, name, vals);
    }
  }

  /** Writing a column other than `series_id` leaves every series id as it was. */
  lemma SeriesIdsKept(t: Table, name: string, vals: seq<Cell>)
    requires |vals| == |t.rows| && name != "series_id"
    ensures ("series_id" in WithColumn(t, name, vals).columns) == ("series_id" in t.columns)
    ensures forall k :: 0 <= k < |t.rows| ==>
      Get(WithColumn(t, name, vals).rows[k], "series_id") == Get(t.rows[k], "series_id")
  {
    WithColumnColumns(t, name, vals);
    WithColumnCells(t, name, vals);
    assert "series_id" in ColumnSet(WithColumn(t, name, vals).columns) <==> "series_id" in ColumnSet(t.columns);
  }
}
