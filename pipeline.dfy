/** `update_db`: the three dimension loads, the observation load and the
    view, in that order, against one database. */
module Pipeline {
  import opened Values
  import opened Dimension
  import opened Facts
  import opened View

  /** The declared columns of the dimension tables; the first is the key. */
  const AreaColumns: seq<string> := ["area_code", "area_name", "display_level", "selectable", "sort_sequence"]
  const ItemColumns: seq<string> := ["item_code", "item_name", "display_level", "selectable", "sort_sequence"]
  const PeriodColumns: seq<string> := ["period", "period_abbr", "period_name"]

  /** What the four fetches of one run returned (`None` for a failed fetch). */
  datatype Inputs = Inputs(areaText: Option<string>, periodText: Option<string>,
                           itemText: Option<string>, dataText: Option<string>)

  /** The contents of the four tables. */
  datatype Tables = Tables(areas: seq<Record>, periods: seq<Record>, items: seq<Record>, facts: seq<Row>)

  /** What each step of a run ended with, and the row count of the view. */
  datatype RunSummary = RunSummary(areas: Status, periods: Status, items: Status, data: Status, viewRows: nat)

  /** The tables after one run. Each step sees only its own file: a failed
      step is caught and the next one runs. */
  function AfterUpdate(t: Tables, input: Inputs, reader: Reader): (r: Tables)
    ensures t.areas <= r.areas && t.periods <= r.periods && t.items <= r.items && t.facts <= r.facts
  {
    Tables(AfterLoad(|AreaColumns|, t.areas, input.areaText, '\t'),
           AfterLoad(|PeriodColumns|, t.periods, input.periodText, '\t'),
           AfterLoad(|ItemColumns|, t.items, input.itemText, '\t'),
           AfterFactLoad(t.facts, input.dataText, '\t', reader))
  }

  /** Running the update twice on the same files leaves the tables as
      running it once. */
  lemma UpdateIdempotent(t: Tables, input: Inputs, reader: Reader)
    ensures AfterUpdate(AfterUpdate(t, input, reader), input, reader) == AfterUpdate(t, input, reader)
  {
    LoadIdempotent(|AreaColumns|, t.areas, input.areaText, '\t');
    LoadIdempotent(|PeriodColumns|, t.periods, input.periodText, '\t');
    LoadIdempotent(|ItemColumns|, t.items, input.itemText, '\t');
    FactLoadIdempotent(t.facts, input.dataText, '\t', reader);
  }

  /** A run whose fetches all fail changes no table. */
  lemma UpdateWithoutText(t: Tables, reader: Reader)
    ensures AfterUpdate(t, Inputs(None, None, None, None), reader) == t
  {
  }

  /** The database the pipeline writes to, with its schema in place. */
  class Database {
    const areas: DimTable
    const periods: DimTable
    const items: DimTable
    const facts: FactTable
    var viewDefined: bool

    ghost predicate Valid()
      reads this, areas, periods, items, facts
    {
      && areas != periods && areas != items && periods != items
      && areas.columns == AreaColumns && periods.columns == PeriodColumns && items.columns == ItemColumns
      && areas.Valid() && periods.Valid() && items.Valid() && facts.Valid()
    }

    function State(): Tables
      reads this, areas, periods, items, facts
    {
      Tables(areas.rows, periods.rows, items.rows, facts.rows)
    }

    /** The rows a query of `data_view` gives. */
    function ViewRows(): seq<ViewRow>
      reads this, areas, periods, items, facts
    {
      ViewOf(facts.rows, areas.rows, items.rows, periods.rows)
    }

    constructor ()
      ensures Valid() && State() == Tables([], [], [], []) && !viewDefined
    {
      areas := new DimTable(AreaColumns);
      periods := new DimTable(PeriodColumns);
      items := new DimTable(ItemColumns);
      facts := new FactTable();
      viewDefined := false;
    }

    /** `create_view(conn)`: drop and recreate the view, then count its rows.
        The keys of the dimension tables are unique, so the count is the
        number of observations. */
    method CreateView() returns (count: nat)
      requires Valid()
      modifies this`viewDefined
      ensures viewDefined
      ensures count == |ViewRows()| == |facts.rows|
    {
      viewDefined := true;
      ViewExactlyOnce(facts.rows, areas.rows, items.rows, periods.rows);
      count := |ViewRows()|;
    }

    /** `update_db` with the four fetch results and the CSV reader. */
    method UpdateDb(input: Inputs, reader: Reader) returns (summary: RunSummary)
      requires Valid()
      modifies this, areas, periods, items, facts
      ensures Valid()
      ensures State() == AfterUpdate(old(State()), input, reader)
      ensures summary.areas == LoadStatus(|AreaColumns|, old(areas.rows), input.areaText, '\t')
      ensures summary.periods == LoadStatus(|PeriodColumns|, old(periods.rows), input.periodText, '\t')
      ensures summary.items == LoadStatus(|ItemColumns|, old(items.rows), input.itemText, '\t')
      ensures summary.data == FactLoadStatus(old(facts.rows), input.dataText, '\t', reader)
      ensures viewDefined && summary.viewRows == |ViewRows()| == |facts.rows|
    {
      var a := areas.Load(input.areaText, '\t');
      var p := periods.Load(input.periodText, '\t');
      var i := items.Load(input.itemText, '\t');
      var d := facts.InsertDataTable(input.dataText, '\t', reader);
      var n := CreateView();
      summary := RunSummary(a, p, i, d, n);
    }
  }
}
