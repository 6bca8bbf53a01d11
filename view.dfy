/** `data_view`: the observations left-joined with the three dimension
    tables on their keys. */
module View {
  import opened Values
  import opened Dimension

  /** One row of the view, in the column order of its SELECT list. */
  datatype ViewRow = ViewRow(
    seriesId: Cell, areaCode: Cell, areaName: Cell, itemCode: Cell, itemName: Cell,
    year: Cell, period: Cell, periodName: Cell, value: Cell)

  /** Field `i` of a dimension row as a cell. */
  function NameAt(r: Record, i: nat): Cell {
    if i < |r| then Text(r[i]) else Null
  }

  /** The dimension rows whose key equals `key`; a NULL or non-text key
      equals none. */
  function Matches(key: Cell, rel: seq<Record>): (m: seq<Record>)
    ensures |m| <= |rel|
    ensures forall r :: r in m <==> r in rel && Text(KeyOf(r)) == key
    decreases |rel|
  {
    if rel == [] then []
    else (if Text(KeyOf(rel[0])) == key then [rel[0]] else []) + Matches(key, rel[1..])
  }

  /** The join keeps duplicates: a matching row occurs among the matches as
      often as in the table, and any other row not at all. */
  lemma {:induction false} MatchesMultiset(key: Cell, rel: seq<Record>, r: Record)
    ensures multiset(Matches(key, rel))[r] == if Text(KeyOf(r)) == key then multiset(rel)[r] else 0
    decreases |rel|
  {
    if rel != [] {
      MatchesMultiset(key, rel[1..], r);
      assert rel == [rel[0]] + rel[1..];
    }
  }

  /** What `LEFT JOIN ... ON` contributes for one key: the field of every
      match, or a single NULL when nothing matches. */
  function Names(key: Cell, rel: seq<Record>, i: nat): (r: seq<Cell>)
    ensures |r| >= 1
    ensures Matches(key, rel) == [] ==> r == [Null]
    ensures Matches(key, rel) != [] ==> |r| == |Matches(key, rel)|
    ensures Matches(key, rel) != [] ==> forall j :: 0 <= j < |r| ==> r[j] == NameAt(Matches(key, rel)[j], i)
  {
    var m := Matches(key, rel);
    if m == [] then [Null] else seq(|m|, j requires 0 <= j < |m| => NameAt(m[j], i))
  }

  /** The SELECT list: the observation's own columns and the three names. */
  function MakeRow(d: Row, areaName: Cell, itemName: Cell, periodName: Cell): (v: ViewRow)
    ensures v.seriesId == Get(d, "series_id") && v.areaCode == Get(d, "area_code") && v.itemCode == Get(d, "item_code")
    ensures v.year == Get(d, "year") && v.period == Get(d, "period") && v.value == Get(d, "value")
  {
    ViewRow(Get(d, "series_id"), Get(d, "area_code"), areaName, Get(d, "item_code"), itemName,
            Get(d, "year"), Get(d, "period"), periodName, Get(d, "value"))
  }

  function WithPeriods(d: Row, a: Cell, i: Cell, pns: seq<Cell>): (r: seq<ViewRow>)
    ensures |r| == |pns|
  {
    seq(|pns|, k requires 0 <= k < |pns| => MakeRow(d, a, i, pns[k]))
  }

  function WithItems(d: Row, a: Cell, ins: seq<Cell>, pns: seq<Cell>): (r: seq<ViewRow>)
    decreases |ins|
  {
    if ins == [] then [] else WithPeriods(d, a, ins[0], pns) + WithItems(d, a, ins[1..], pns)
  }

  function WithAreas(d: Row, ans: seq<Cell>, ins: seq<Cell>, pns: seq<Cell>): (r: seq<ViewRow>)
    decreases |ans|
  {
    if ans == [] then [] else WithItems(d, ans[0], ins, pns) + WithAreas(d, ans[1..], ins, pns)
  }

  /** The view rows one observation gives: since every ON clause compares a
      column of `data`, the three joins multiply their matches. */
  function RowsOf(d: Row, areas: seq<Record>, items: seq<Record>, periods: seq<Record>): (r: seq<ViewRow>)
    ensures |r| >= 1
  {
    var ans, ins, pns := Names(Get(d, "area_code"), areas, 1), Names(Get(d, "item_code"), items, 1),
                         Names(Get(d, "period"), periods, 2);
    WithAreasLength(d, ans, ins, pns);
    ProductPositive(|ans|, |ins|, |pns|);
    WithAreas(d, ans, ins, pns)
  }

  /** The query of `create_view` over the four tables. */
  function ViewOf(data: seq<Row>, areas: seq<Record>, items: seq<Record>, periods: seq<Record>): (v: seq<ViewRow>)
    ensures v == [] <==> data == []
    decreases |data|
  {
    if data == [] then []
    else
      RowsOfCount(data[0], areas, items, periods);
      RowsOf(data[0], areas, items, periods) + ViewOf(data[1..], areas, items, periods)
  }

  lemma {:induction false} WithItemsLength(d: Row, a: Cell, ins: seq<Cell>, pns: seq<Cell>)
    ensures |WithItems(d, a, ins, pns)| == |ins| * |pns|
    decreases |ins|
  {
    if ins != [] {
      WithItemsLength(d, a, ins[1..], pns);
      MulStep(|ins|, |pns|);
    }
  }

  lemma {:induction false} WithAreasLength(d: Row, ans: seq<Cell>, ins: seq<Cell>, pns: seq<Cell>)
    ensures |WithAreas(d, ans, ins, pns)| == |ans| * (|ins| * |pns|)
    decreases |ans|
  {
    if ans != [] {
      WithItemsLength(d, ans[0], ins, pns);
      WithAreasLength(d, ans[1..], ins, pns);
      MulStep(|ans|, |ins| * |pns|);
    }
  }

  /** An observation gives as many view rows as the product of its match
      counts, each at least one: a left join never drops it. */
  lemma RowsOfCount(d: Row, areas: seq<Record>, items: seq<Record>, periods: seq<Record>)
    ensures var na, ni, np := |Names(Get(d, "area_code"), areas, 1)|, |Names(Get(d, "item_code"), items, 1)|,
                              |Names(Get(d, "period"), periods, 2)|;
      |RowsOf(d, areas, items, periods)| == na * (ni * np) >= 1
  {
    var ans, ins, pns := Names(Get(d, "area_code"), areas, 1), Names(Get(d, "item_code"), items, 1),
                      Names(Get(d, "period"), periods, 2);
    WithAreasLength(d, ans, ins, pns);
    ProductPositive(|ans|, |ins|, |pns|);
  }

  lemma MulStep(x: nat, y: nat)
    requires x >= 1
    ensures x * y == y + (x - 1) * y
  {
  }

  lemma ProductPositive(x: nat, y: nat, z: nat)
    requires x >= 1 && y >= 1 && z >= 1
    ensures x * (y * z) >= 1
  {
    assert y * z >= 1 * z;
    assert x * (y * z) >= 1 * (y * z);
  }

  /** Every observation appears at least once in the view, whatever the
      dimension tables hold. */
  lemma {:induction false} ViewKeepsEveryObservation(data: seq<Row>, areas: seq<Record>, items: seq<Record>, periods: seq<Record>)
    ensures |ViewOf(data, areas, items, periods)| >= |data|
    decreases |data|
  {
    if data != [] {
      RowsOfCount(data[0], areas, items, periods);
      ViewKeepsEveryObservation(data[1..], areas, items, periods);
    }
  }

  /** The name a key finds through the table's index, NULL when it finds
      nothing. */
  function Lookup(key: Cell, rel: seq<Record>, i: nat): (r: Cell)
    ensures r != Null ==> key.Text? && key.s in Keys(rel)
    ensures r != Null ==> exists row :: row in rel && KeyOf(row) == key.s && r == NameAt(row, i)
  {
    IndexKeys(rel);
    if key.Text? && key.s in Index(rel) then
      IndexHolds(rel, key.s);
      IndexKeyOf(rel, key.s);
      NameAt(Index(rel)[key.s], i)
    else Null
  }

  /** The view row of one observation when every key finds at most one row. */
  function LookupRow(d: Row, areas: seq<Record>, items: seq<Record>, periods: seq<Record>): (v: ViewRow)
    ensures v.seriesId == Get(d, "series_id") && v.areaCode == Get(d, "area_code") && v.itemCode == Get(d, "item_code")
    ensures v.year == Get(d, "year") && v.period == Get(d, "period") && v.value == Get(d, "value")
    ensures v.areaName != Null ==> (Get(d, "area_code").Text? &&
              exists a :: a in areas && KeyOf(a) == Get(d, "area_code").s && v.areaName == NameAt(a, 1))
    ensures v.itemName != Null ==> (Get(d, "item_code").Text? &&
              exists it :: it in items && KeyOf(it) == Get(d, "item_code").s && v.itemName == NameAt(it, 1))
    ensures v.periodName != Null ==> (Get(d, "period").Text? &&
              exists p :: p in periods && KeyOf(p) == Get(d, "period").s && v.periodName == NameAt(p, 2))
  {
    MakeRow(d, Lookup(Get(d, "area_code"), areas, 1), Lookup(Get(d, "item_code"), items, 1),
            Lookup(Get(d, "period"), periods, 2))
  }

  lemma UniqueKeysTail(rel: seq<Record>)
    requires rel != [] && UniqueKeys(rel)
    ensures UniqueKeys(rel[1..]) && KeyOf(rel[0]) !in Keys(rel[1..])
  {
    var t := rel[1..];
    forall i, j | 0 <= i < j < |t| ensures KeyOf(t[i]) != KeyOf(t[j]) {
      assert t[i] == rel[i + 1] && t[j] == rel[j + 1];
    }
    forall j | 0 <= j < |t| ensures KeyOf(t[j]) != KeyOf(rel[0]) {
      assert t[j] == rel[j + 1];
    }
  }

  /** With unique keys a key matches the row the index holds for it, or none. */
  lemma {:induction false} MatchesUnique(key: Cell, rel: seq<Record>)
    requires UniqueKeys(rel)
    ensures Matches(key, rel) == if key.Text? && key.s in Index(rel) then [Index(rel)[key.s]] else []
    decreases |rel|
  {
    if rel != [] {
      UniqueKeysTail(rel);
      MatchesUnique(key, rel[1..]);
      IndexKeys(rel[1..]);
    }
  }

  lemma SingleRow(d: Row, a: Cell, i: Cell, p: Cell)
    ensures WithAreas(d, [a], [i], [p]) == [MakeRow(d, a, i, p)]
  {
    assert [a][1..] == [] && [i][1..] == [];
    assert WithPeriods(d, a, i, [p]) == [MakeRow(d, a, i, p)];
    assert WithItems(d, a, [i], [p]) == [MakeRow(d, a, i, p)] + [];
  }

  lemma NamesUnique(key: Cell, rel: seq<Record>, i: nat)
    requires UniqueKeys(rel)
    ensures Names(key, rel, i) == [Lookup(key, rel, i)]
  {
    MatchesUnique(key, rel);
  }

  /** With unique dimension keys the view holds exactly one row per
      observation, namely its lookup row. The query has no ORDER BY, so the
      row order (that of `data`) is the model's choice; the row count and
      each observation's own row are what the query itself fixes. */
  lemma {:induction false} ViewExactlyOnce(data: seq<Row>, areas: seq<Record>, items: seq<Record>, periods: seq<Record>)
    requires UniqueKeys(areas) && UniqueKeys(items) && UniqueKeys(periods)
    ensures |ViewOf(data, areas, items, periods)| == |data|
    ensures forall k :: 0 <= k < |data| ==> ViewOf(data, areas, items, periods)[k] == LookupRow(data[k], areas, items, periods)
    decreases |data|
  {
    if data != [] {
      var d := data[0];
      NamesUnique(Get(d, "area_code"), areas, 1);
      NamesUnique(Get(d, "item_code"), items, 1);
      NamesUnique(Get(d, "period"), periods, 2);
      SingleRow(d, Lookup(Get(d, "area_code"), areas, 1), Lookup(Get(d, "item_code"), items, 1),
                Lookup(Get(d, "period"), periods, 2));
      ViewExactlyOnce(data[1..], areas, items, periods);
    }
  }

  /** A looked-up name is NULL exactly when the key finds no row, provided
      the rows are wide enough to hold the name. */
  lemma LookupNull(key: Cell, rel: seq<Record>, i: nat)
    requires forall k :: 0 <= k < |rel| ==> i < |rel[k]|
    ensures Lookup(key, rel, i) == Null <==> !(key.Text? && key.s in Keys(rel))
  {
    IndexKeys(rel);
    if key.Text? && key.s in Index(rel) {
      IndexHolds(rel, key.s);
    }
  }

  /** The index holds only rows of the table. */
  lemma {:induction false} IndexHolds(rel: seq<Record>, key: string)
    requires key in Index(rel)
    ensures Index(rel)[key] in rel
    decreases |rel|
  {
    if key != KeyOf(rel[0]) {
      IndexHolds(rel[1..], key);
    }
  }

  /** In the view of well-formed tables, a dimension name is NULL exactly
      when the observation's code has no row in that table; every other
      column is the observation's own. */
  lemma ViewNames(data: seq<Row>, areas: seq<Record>, items: seq<Record>, periods: seq<Record>, k: nat)
    requires UniqueKeys(areas) && UniqueKeys(items) && UniqueKeys(periods)
    requires forall j :: 0 <= j < |areas| ==> |areas[j]| >= 2
    requires forall j :: 0 <= j < |items| ==> |items[j]| >= 2
    requires forall j :: 0 <= j < |periods| ==> |periods[j]| >= 3
    requires k < |data|
    ensures k < |ViewOf(data, areas, items, periods)|
    ensures var v, d := ViewOf(data, areas, items, periods)[k], data[k];
      && (v.areaName == Null <==> !(Get(d, "area_code").Text? && Get(d, "area_code").s in Keys(areas)))
      && (v.itemName == Null <==> !(Get(d, "item_code").Text? && Get(d, "item_code").s in Keys(items)))
      && (v.periodName == Null <==> !(Get(d, "period").Text? && Get(d, "period").s in Keys(periods)))
      && v.seriesId == Get(d, "series_id") && v.areaCode == Get(d, "area_code") && v.itemCode == Get(d, "item_code")
      && v.year == Get(d, "year") && v.period == Get(d, "period") && v.value == Get(d, "value")
  {
    ViewExactlyOnce(data, areas, items, periods);
    LookupNull(Get(data[k], "area_code"), areas, 1);
    LookupNull(Get(data[k], "item_code"), items, 1);
    LookupNull(Get(data[k], "period"), periods, 2);
  }

  /** In the view of tables with unique keys, a name that is not NULL is
      the name field of the dimension row whose key is the observation's code. */
  lemma ViewNamesFrom(data: seq<Row>, areas: seq<Record>, items: seq<Record>, periods: seq<Record>, k: nat)
    requires UniqueKeys(areas) && UniqueKeys(items) && UniqueKeys(periods)
    requires k < |data|
    ensures k < |ViewOf(data, areas, items, periods)|
    ensures var v, d := ViewOf(data, areas, items, periods)[k], data[k];
      && (v.areaName != Null ==> (Get(d, "area_code").Text? &&
            exists a :: a in areas && KeyOf(a) == Get(d, "area_code").s && v.areaName == NameAt(a, 1)))
      && (v.itemName != Null ==> (Get(d, "item_code").Text? &&
            exists it :: it in items && KeyOf(it) == Get(d, "item_code").s && v.itemName == NameAt(it, 1)))
      && (v.periodName != Null ==> (Get(d, "period").Text? &&
            exists p :: p in periods && KeyOf(p) == Get(d, "period").s && v.periodName == NameAt(p, 2)))
  {
    ViewExactlyOnce(data, areas, items, periods);
  }
}
