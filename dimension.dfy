/** Loading a dimension file (`insert_non_data_table`): the text is cut into
    rows and fields, and the rows go into a keyed table with
    `INSERT OR IGNORE`, one batch for the whole file. */
module Dimension {
  import opened PyStr
  import opened Values

  /** One row of a dimension file: its fields in file order; the first is the key. */
  type Record = seq<string>

  /** `text.strip().split('\n')` */
  function Lines(text: string): (lines: seq<string>)
    ensures |lines| >= 1
  {
    Split(Strip(text), '\n')
  }

  /** `[row.split(separator) for row in rows[1:]]`: every line after the
      header, cut into fields. */
  function SplitRows(text: string, sep: char): (rows: seq<Record>)
    ensures |rows| == |Lines(text)| - 1
    ensures forall k :: 0 <= k < |rows| ==> |rows[k]| >= 1
  {
    var lines := Lines(text);
    seq(|lines| - 1, k requires 0 <= k < |lines| - 1 => Split(lines[k + 1], sep))
  }

  /** Each row gives back its line when its fields are joined with the
      separator, and no field holds the separator or a line break. */
  lemma SplitRowsRejoin(text: string, sep: char)
    ensures forall k :: 0 <= k < |SplitRows(text, sep)| ==>
      Join(SplitRows(text, sep)[k], sep) == Lines(text)[k + 1]
      && forall f :: f in SplitRows(text, sep)[k] ==> sep !in f && '\n' !in f
  {
    var lines := Lines(text);
    forall k | 0 <= k < |lines| - 1
      ensures Join(SplitRows(text, sep)[k], sep) == lines[k + 1]
      ensures forall f :: f in SplitRows(text, sep)[k] ==> sep !in f && '\n' !in f
    {
      JoinSplit(lines[k + 1], sep);
      assert '\n' !in lines[k + 1];
      SplitPiecesFrom(lines[k + 1], sep);
      forall f | f in Split(lines[k + 1], sep) ensures '\n' !in f {
        var j :| 0 <= j < |Split(lines[k + 1], sep)| && Split(lines[k + 1], sep)[j] == f;
      }
    }
  }

  /** Text with no line break once stripped (blank text, or a header alone)
      has no data row. */
  lemma NoLineBreakNoRows(text: string, sep: char)
    requires '\n' !in Strip(text)
    ensures SplitRows(text, sep) == []
  {
    SplitWithout(Strip(text), '\n');
  }

  function KeyOf(r: Record): string {
    if |r| > 0 then r[0] else []
  }

  function Keys(rs: seq<Record>): set<string> {
    set k | 0 <= k < |rs| :: KeyOf(rs[k])
  }

  predicate UniqueKeys(rs: seq<Record>) {
    forall i, j :: 0 <= i < j < |rs| ==> KeyOf(rs[i]) != KeyOf(rs[j])
  }

  /** The table as its primary key sees it: from each key to the first row
      holding it. */
  function Index(rs: seq<Record>): (m: map<string, Record>)
    ensures rs != [] ==> KeyOf(rs[0]) in m && m[KeyOf(rs[0])] == rs[0]
    decreases |rs|
  {
    if rs == [] then map[] else Index(rs[1..])[KeyOf(rs[0]) := rs[0]]
  }

  /** The rows of `batch` that `INSERT OR IGNORE` adds, in order, to a table
      holding the keys `seen`: row by row, a row is added when no row of the
      table and no earlier row of the batch has its key. */
  function Fresh(seen: set<string>, batch: seq<Record>): (r: seq<Record>)
    ensures |r| <= |batch|
    decreases |batch|
  {
    if batch == [] then []
    else
      var init, x := batch[..|batch| - 1], batch[|batch| - 1];
      Fresh(seen, init) + (if KeyOf(x) in seen + Keys(init) then [] else [x])
  }

  /** Why the batch is refused as a whole. `rows[0]` on no rows raises; the
      placeholder count comes from the first row and must match the table's
      columns; a later row of another width makes `executemany` raise and
      `with conn` roll back the rows it had already inserted. */
  function BatchError(arity: nat, batch: seq<Record>): (e: Option<LoadError>)
    ensures e.None? <==> |batch| > 0 && forall k :: 0 <= k < |batch| ==> |batch[k]| == arity
    ensures e.Some? ==> e.value.NoDataRow? || e.value.ArityMismatch? || e.value.BindingCount?
  {
    if |batch| == 0 then Some(NoDataRow)
    else if |batch[0]| != arity then Some(ArityMismatch(arity, |batch[0]|))
    else if exists k :: 0 <= k < |batch| && |batch[k]| != |batch[0]| then Some(BindingCount)
    else None
  }

  /** The table after `INSERT OR IGNORE` of `batch`. */
  function AfterInsert(arity: nat, rows: seq<Record>, batch: seq<Record>): (r: seq<Record>)
    ensures rows <= r && |r| <= |rows| + |batch|
  {
    if BatchError(arity, batch).None? then rows + Fresh(Keys(rows), batch) else rows
  }

  function InsertStatus(arity: nat, rows: seq<Record>, batch: seq<Record>): (st: Status)
    ensures st.Failed? <==> BatchError(arity, batch).Some?
    ensures st.Failed? ==> AfterInsert(arity, rows, batch) == rows
    ensures st.Inserted? ==> st.count == |AfterInsert(arity, rows, batch)| - |rows|
  {
    match BatchError(arity, batch)
    case Some(e) => Failed(e)
    case None => Inserted(|Fresh(Keys(rows), batch)|)
  }

  /** The index files every row under its own key. */
  lemma {:induction false} IndexKeyOf(rs: seq<Record>, key: string)
    requires key in Index(rs)
    ensures KeyOf(Index(rs)[key]) == key
    decreases |rs|
  {
    if key != KeyOf(rs[0]) {
      IndexKeyOf(rs[1..], key);
    }
  }

  lemma {:induction false} KeysAppend(a: seq<Record>, b: seq<Record>)
    ensures Keys(a + b) == Keys(a) + Keys(b)
  {
    var ab := a + b;
    forall key | key in Keys(ab) ensures key in Keys(a) + Keys(b) {
      var k :| 0 <= k < |ab| && KeyOf(ab[k]) == key;
      if k < |a| { assert ab[k] == a[k]; } else { assert ab[k] == b[k - |a|]; }
    }
    forall key | key in Keys(a) + Keys(b) ensures key in Keys(ab) {
      if key in Keys(a) {
        var k :| 0 <= k < |a| && KeyOf(a[k]) == key;
        assert ab[k] == a[k];
      } else {
        var k :| 0 <= k < |b| && KeyOf(b[k]) == key;
        assert ab[|a| + k] == b[k];
      }
    }
  }

  /** The keys `Fresh` adds are exactly the batch keys the table lacks. */
  lemma {:induction false} FreshKeys(seen: set<string>, batch: seq<Record>)
    ensures Keys(Fresh(seen, batch)) == Keys(batch) - seen
    decreases |batch|
  {
    if batch != [] {
      var init, x := batch[..|batch| - 1], batch[|batch| - 1];
      FreshKeys(seen, init);
      var add := if KeyOf(x) in seen + Keys(init) then [] else [x];
      assert batch == init + [x];
      KeysAppend(Fresh(seen, init), add);
      KeysAppend(init, [x]);
      assert Keys([x]) == {KeyOf(x)};
      assert Keys([]) == {};
    }
  }

  /** `Fresh` adds at most one row per key. */
  lemma {:induction false} FreshUnique(seen: set<string>, batch: seq<Record>)
    ensures UniqueKeys(Fresh(seen, batch))
    decreases |batch|
  {
    if batch != [] {
      var init, x := batch[..|batch| - 1], batch[|batch| - 1];
      FreshUnique(seen, init);
      FreshKeys(seen, init);
      var f := Fresh(seen, init);
      if KeyOf(x) !in seen + Keys(init) {
        var g := f + [x];
        forall i, j | 0 <= i < j < |g| ensures KeyOf(g[i]) != KeyOf(g[j]) {
          assert g[i] == f[i];
          if j < |f| {
            assert g[j] == f[j];
          } else {
            assert KeyOf(f[i]) in Keys(f);
          }
        }
      }
    }
  }

  /** Each row `Fresh` adds is the first row of the batch with its key. */
  lemma {:induction false} FreshFirst(seen: set<string>, batch: seq<Record>)
    ensures forall r :: r in Fresh(seen, batch) ==>
      exists k :: 0 <= k < |batch| && batch[k] == r && KeyOf(r) !in seen && KeyOf(r) !in Keys(batch[..k])
    decreases |batch|
  {
    if batch != [] {
      var init, x := batch[..|batch| - 1], batch[|batch| - 1];
      FreshFirst(seen, init);
      var f := Fresh(seen, init);
      forall r | r in Fresh(seen, batch)
        ensures exists k :: 0 <= k < |batch| && batch[k] == r && KeyOf(r) !in seen && KeyOf(r) !in Keys(batch[..k])
      {
        if r in f {
          var k :| 0 <= k < |init| && init[k] == r && KeyOf(r) !in seen && KeyOf(r) !in Keys(init[..k]);
          assert batch[..k] == init[..k];
          assert batch[k] == r;
        } else {
          assert r == x && batch[..|batch| - 1] == init;
        }
      }
    }
  }

  /** One more batch row: `Fresh` adds it exactly when its key is new. */
  lemma FreshStep(seen: set<string>, batch: seq<Record>, i: nat)
    requires i < |batch|
    ensures Fresh(seen, batch[..i + 1]) ==
      Fresh(seen, batch[..i]) + (if KeyOf(batch[i]) in seen + Keys(batch[..i]) then [] else [batch[i]])
    ensures Keys(batch[..i + 1]) == Keys(batch[..i]) + {KeyOf(batch[i])}
  {
    var r := batch[i];
    assert batch[..i + 1] == batch[..i] + [r];
    assert batch[..i + 1][..i] == batch[..i];
    KeysAppend(batch[..i], [r]);
    assert Keys([r]) == {KeyOf(r)};
  }

  /** A batch whose keys are all present adds nothing. */
  lemma {:induction false} FreshOfSeen(seen: set<string>, batch: seq<Record>)
    requires Keys(batch) <= seen
    ensures Fresh(seen, batch) == []
    decreases |batch|
  {
    if batch != [] {
      var init := batch[..|batch| - 1];
      KeysAppend(init, [batch[|batch| - 1]]);
      assert init + [batch[|batch| - 1]] == batch;
      FreshOfSeen(seen, init);
    }
  }

  lemma {:induction false} IndexAppend(a: seq<Record>, b: seq<Record>)
    ensures Index(a + b) == Index(b) + Index(a)
    decreases |a|
  {
    if a == [] {
      assert a + b == b;
    } else {
      assert (a + b)[1..] == a[1..] + b;
      IndexAppend(a[1..], b);
    }
  }

  /** The keys of the index are the keys of the rows. */
  lemma {:induction false} IndexKeys(rs: seq<Record>)
    ensures Index(rs).Keys == Keys(rs)
    decreases |rs|
  {
    if rs != [] {
      IndexKeys(rs[1..]);
      assert rs == [rs[0]] + rs[1..];
      KeysAppend([rs[0]], rs[1..]);
      assert Keys([rs[0]]) == {KeyOf(rs[0])};
    }
  }

  /** With unique keys, the index finds every row under its own key. */
  lemma {:induction false} IndexOfUnique(rs: seq<Record>)
    requires UniqueKeys(rs)
    ensures forall i :: 0 <= i < |rs| ==> KeyOf(rs[i]) in Index(rs) && Index(rs)[KeyOf(rs[i])] == rs[i]
    decreases |rs|
  {
    if rs != [] {
      IndexOfUnique(rs[1..]);
      forall i | 0 <= i < |rs| ensures KeyOf(rs[i]) in Index(rs) && Index(rs)[KeyOf(rs[i])] == rs[i] {
        if i > 0 {
          assert rs[1..][i - 1] == rs[i];
        }
      }
    }
  }

  /** Within a batch the first row with a key is the one the table keeps,
      so `Fresh` indexes like the whole batch on the keys the table lacks. */
  lemma FreshIndex(seen: set<string>, batch: seq<Record>)
    ensures forall key :: key !in seen ==>
      (key in Index(Fresh(seen, batch)) <==> key in Index(batch))
      && (key in Index(batch) ==> Index(Fresh(seen, batch))[key] == Index(batch)[key])
    ensures Index(Fresh(seen, batch)).Keys !! seen
  {
    FreshKeys(seen, batch);
    IndexKeys(Fresh(seen, batch));
    forall key | key !in seen
      ensures (key in Index(Fresh(seen, batch)) <==> key in Index(batch))
      ensures key in Index(batch) ==> Index(Fresh(seen, batch))[key] == Index(batch)[key]
    {
      FreshIndexAt(seen, batch, key);
    }
  }

  lemma {:induction false} FreshIndexAt(seen: set<string>, batch: seq<Record>, key: string)
    requires key !in seen
    ensures key in Index(Fresh(seen, batch)) <==> key in Index(batch)
    ensures key in Index(batch) ==> Index(Fresh(seen, batch))[key] == Index(batch)[key]
    decreases |batch|
  {
    if batch != [] {
      var init, x := batch[..|batch| - 1], batch[|batch| - 1];
      FreshIndexAt(seen, init, key);
      var f0 := Fresh(seen, init);
      var add := if KeyOf(x) in seen + Keys(init) then [] else [x];
      var one := map[KeyOf(x) := x];
      assert Index([x]) == one by {
        assert [x][1..] == [];
      }
      assert Fresh(seen, batch) == f0 + add && Index(batch) == one + Index(init) by {
        assert batch == init + [x];
        IndexAppend(init, [x]);
      }
      assert Index(Fresh(seen, batch)) == if add == [] then Index(f0) else one + Index(f0) by {
        IndexAppend(f0, add);
        if add == [] {
          assert Index(add) == map[];
        }
      }
      IndexKeys(init);
      FreshIndexStep(seen, Index(init), Index(f0), x, key);
    }
  }

  /** The map step of `FreshIndexAt`: one more batch row `x` is filed under
      its key in both views, or in neither when its key is already known. */
  lemma FreshIndexStep(seen: set<string>, before: map<string, Record>, added: map<string, Record>,
                       x: Record, key: string)
    requires key !in seen
    requires key in added <==> key in before
    requires key in before ==> added[key] == before[key]
    ensures var after := if KeyOf(x) in seen + before.Keys then added else map[KeyOf(x) := x] + added;
            (key in after <==> key in map[KeyOf(x) := x] + before)
            && (key in after ==> after[key] == (map[KeyOf(x) := x] + before)[key])
  {
  }

  /** Seen as maps from key to row, an accepted insert is a map union in
      which the table's rows win over the batch's and, within the batch,
      the first row with a key wins. */
  lemma InsertAsMap(arity: nat, rows: seq<Record>, batch: seq<Record>)
    requires BatchError(arity, batch).None?
    ensures Index(AfterInsert(arity, rows, batch)) == Index(batch) + Index(rows)
  {
    var f := Fresh(Keys(rows), batch);
    IndexAppend(rows, f);
    FreshIndex(Keys(rows), batch);
    IndexKeys(rows);
  }

  /** Existing rows are never modified: every key the table held still maps
      to the same row, whether the batch was accepted or refused. */
  lemma InsertKeepsExisting(arity: nat, rows: seq<Record>, batch: seq<Record>)
    ensures forall key :: key in Index(rows) ==>
      key in Index(AfterInsert(arity, rows, batch)) && Index(AfterInsert(arity, rows, batch))[key] == Index(rows)[key]
  {
    if BatchError(arity, batch).None? {
      IndexAppend(rows, Fresh(Keys(rows), batch));
    }
  }

  /** An accepted batch leaves exactly the old keys and the batch's keys;
      a refused one changes nothing. Keys stay unique either way. */
  lemma InsertKeys(arity: nat, rows: seq<Record>, batch: seq<Record>)
    ensures BatchError(arity, batch).None? ==> Keys(AfterInsert(arity, rows, batch)) == Keys(rows) + Keys(batch)
    ensures BatchError(arity, batch).Some? ==> AfterInsert(arity, rows, batch) == rows
    ensures UniqueKeys(rows) ==> UniqueKeys(AfterInsert(arity, rows, batch))
  {
    if BatchError(arity, batch).None? {
      var f := Fresh(Keys(rows), batch);
      FreshKeys(Keys(rows), batch);
      FreshUnique(Keys(rows), batch);
      KeysAppend(rows, f);
      if UniqueKeys(rows) {
        var all := rows + f;
        forall i, j | 0 <= i < j < |all| ensures KeyOf(all[i]) != KeyOf(all[j]) {
          if j < |rows| {
            assert all[i] == rows[i] && all[j] == rows[j];
          } else if i < |rows| {
            assert all[i] == rows[i] && all[j] == f[j - |rows|];
            assert KeyOf(f[j - |rows|]) in Keys(f);
          } else {
            assert all[i] == f[i - |rows|] && all[j] == f[j - |rows|];
          }
        }
      }
    }
  }

  /** Every row of the table after an insert has the table's width, if the
      rows before it had. */
  lemma InsertKeepsWidth(arity: nat, rows: seq<Record>, batch: seq<Record>)
    requires forall k :: 0 <= k < |rows| ==> |rows[k]| == arity
    ensures forall k :: 0 <= k < |AfterInsert(arity, rows, batch)| ==> |AfterInsert(arity, rows, batch)[k]| == arity
  {
    if BatchError(arity, batch).None? {
      var f := Fresh(Keys(rows), batch);
      FreshFirst(Keys(rows), batch);
      var all := rows + f;
      forall k | 0 <= k < |all| ensures |all[k]| == arity {
        if k >= |rows| {
          assert all[k] == f[k - |rows|] && all[k] in f;
        } else {
          assert all[k] == rows[k];
        }
      }
    }
  }

  /** Inserting the same batch a second time changes nothing. */
  lemma InsertIdempotent(arity: nat, rows: seq<Record>, batch: seq<Record>)
    ensures AfterInsert(arity, AfterInsert(arity, rows, batch), batch) == AfterInsert(arity, rows, batch)
  {
    var once := AfterInsert(arity, rows, batch);
    if BatchError(arity, batch).None? {
      InsertKeys(arity, rows, batch);
      FreshOfSeen(Keys(once), batch);
      assert once + [] == once;
    }
  }

  /** The table after `insert_non_data_table` has read `text` (`None` when
      the fetch failed). `if text:` skips `None` and the empty string. */
  function AfterLoad(arity: nat, rows: seq<Record>, text: Option<string>, sep: char): (r: seq<Record>)
    ensures rows <= r
    ensures text.None? || text.value == [] ==> r == rows
  {
    if text.None? || text.value == [] then rows else AfterInsert(arity, rows, SplitRows(text.value, sep))
  }

  function LoadStatus(arity: nat, rows: seq<Record>, text: Option<string>, sep: char): (st: Status)
    ensures text.None? || text.value == [] ==> st == Failed(NoText)
    ensures st.Failed? ==> AfterLoad(arity, rows, text, sep) == rows
    ensures st.Inserted? ==> st.count == |AfterLoad(arity, rows, text, sep)| - |rows|
  {
    if text.None? || text.value == [] then Failed(NoText) else InsertStatus(arity, rows, SplitRows(text.value, sep))
  }

  /** Loading the same file twice leaves the table as loading it once. */
  lemma LoadIdempotent(arity: nat, rows: seq<Record>, text: Option<string>, sep: char)
    ensures AfterLoad(arity, AfterLoad(arity, rows, text, sep), text, sep) == AfterLoad(arity, rows, text, sep)
  {
    if text.Some? && text.value != [] {
      InsertIdempotent(arity, rows, SplitRows(text.value, sep));
    }
  }

  /** No text, blank text, or a header with no line after it: the table is
      unchanged and the step reports why. */
  lemma LoadWithoutData(arity: nat, rows: seq<Record>, text: Option<string>, sep: char)
    requires text.None? || AllSpace(text.value) || '\n' !in Strip(text.value)
    ensures AfterLoad(arity, rows, text, sep) == rows
    ensures LoadStatus(arity, rows, text, sep).Failed?
  {
    if text.Some? && text.value != [] {
      if AllSpace(text.value) {
        StripEmpty(text.value);
      }
      NoLineBreakNoRows(text.value, sep);
    }
  }

  /** A two-line areas file: with a two-column table its one data row goes
      in; the five-column `areas` table refuses the batch, because the
      placeholder count comes from that row. */
  lemma LoadExample(text: string)
    requires text == "area_code\tarea_name" + "\n" + "0000" + "\t" + "U.S. city average" + "\n"
    ensures AfterLoad(2, [], Some(text), '\t') == [["0000", "U.S. city average"]]
    ensures LoadStatus(2, [], Some(text), '\t') == Inserted(1)
    ensures AfterLoad(5, [], Some(text), '\t') == []
    ensures LoadStatus(5, [], Some(text), '\t') == Failed(ArityMismatch(5, 2))
  {
    LoadOneRow(text, "area_code\tarea_name", "0000", "U.S. city average");
  }

  lemma LoadOneRow(text: string, h: string, a: string, b: string)
    requires text == h + "\n" + a + "\t" + b + "\n"
    requires |h| > 0 && |b| > 0 && !IsSpace(h[0]) && !IsSpace(b[|b| - 1])
    requires '\n' !in h && '\n' !in a && '\n' !in b && '\t' !in a && '\t' !in b
    ensures AfterLoad(2, [], Some(text), '\t') == [[a, b]]
    ensures LoadStatus(2, [], Some(text), '\t') == Inserted(1)
    ensures AfterLoad(5, [], Some(text), '\t') == []
    ensures LoadStatus(5, [], Some(text), '\t') == Failed(ArityMismatch(5, 2))
  {
    var d := a + "\t" + b;
    assert text == h + "\n" + d + "\n";
    assert d[|d| - 1] == b[|b| - 1];
    ExampleLines(text, h, d);
    ExampleFields(d, a, b);
    assert SplitRows(text, '\t') == [[a, b]];
    InsertOneRecord(2, [a, b]);
  }

  /** One record of the table's width goes into an empty table. */
  lemma InsertOneRecord(arity: nat, r: Record)
    requires |r| == arity
    ensures AfterInsert(arity, [], [r]) == [r] && InsertStatus(arity, [], [r]) == Inserted(1)
  {
    assert Keys([]) == {};
    assert [r][..0] == [];
    assert Fresh({}, [r]) == [r];
  }

  lemma ExampleLines(text: string, h: string, d: string)
    requires text == h + "\n" + d + "\n"
    requires |h| > 0 && |d| > 0 && !IsSpace(h[0]) && !IsSpace(d[|d| - 1])
    requires '\n' !in h && '\n' !in d
    ensures Lines(text) == [h, d]
  {
    StripsFinalBreak(text, h + "\n" + d);
    SplitAfterWord(h, '\n', d);
    SplitWithout(d, '\n');
  }

  lemma StripsFinalBreak(text: string, body: string)
    requires text == body + "\n" && Stripped(body)
    ensures Strip(text) == body
  {
    assert text == [] + body + "\n";
    StripUnique([], body, "\n");
  }

  lemma ExampleFields(d: string, a: string, b: string)
    requires d == a + "\t" + b && '\t' !in a && '\t' !in b
    ensures Split(d, '\t') == [a, b]
  {
    SplitAfterWord(a, '\t', b);
    SplitWithout(b, '\t');
  }

  /** The statement run row by row inside the transaction: each row whose
      key is neither stored nor already added is added; a row of another
      width than the first stops it (`None`), and the rollback drops what
      was added. */
  method ExecuteMany(stored: seq<Record>, batch: seq<Record>) returns (added: Option<seq<Record>>)
    requires |batch| > 0
    ensures added.Some? <==> forall k :: 0 <= k < |batch| ==> |batch[k]| == |batch[0]|
    ensures added.Some? ==> added.value == Fresh(Keys(stored), batch)
  {
    var out: seq<Record> := [];
    var keys := Keys(stored);
    var i := 0;
    while i < |batch|
      invariant 0 <= i <= |batch|
      invariant forall k :: 0 <= k < i ==> |batch[k]| == |batch[0]|
      invariant out == Fresh(Keys(stored), batch[..i])
      invariant keys == Keys(stored) + Keys(batch[..i])
    {
      var r := batch[i];
      if |r| != |batch[0]| {
        return None;
      }
      FreshStep(Keys(stored), batch, i);
      out := out + if KeyOf(r) in keys then [] else [r];
      keys := keys + {KeyOf(r)};
      i := i + 1;
    }
    assert batch[..i] == batch;
    return Some(out);
  }

  /** A table with one key column; the first column is its primary key. Rows
      are kept in insertion order, as SQLite's rowids keep them. */
  class DimTable {
    const columns: seq<string>
    var rows: seq<Record>

    ghost predicate Valid()
      reads this
    {
      |columns| >= 1 && (forall k :: 0 <= k < |rows| ==> |rows[k]| == |columns|) && UniqueKeys(rows)
    }

    constructor (columns: seq<string>)
      requires |columns| >= 1
      ensures Valid() && this.columns == columns && rows == []
    {
      this.columns := columns;
      rows := [];
    }

    /** `cursor.executemany("INSERT OR IGNORE INTO t VALUES (?, ...)", batch)`
        inside `with conn:`. The transaction's rows are committed only when
        every row went through. */
    method InsertOrIgnore(batch: seq<Record>) returns (status: Status)
      requires Valid()
      modifies this`rows
      ensures Valid()
      ensures rows == AfterInsert(|columns|, old(rows), batch)
      ensures status == InsertStatus(|columns|, old(rows), batch)
    {
      if |batch| == 0 {
        return Failed(NoDataRow);
      }
      if |batch[0]| != |columns| {
        return Failed(ArityMismatch(|columns|, |batch[0]|));
      }
      var added := ExecuteMany(rows, batch);
      if added.None? {
        return Failed(BindingCount);
      }
      InsertKeys(|columns|, rows, batch);
      InsertKeepsWidth(|columns|, rows, batch);
      rows := rows + added.value;
      return Inserted(|added.value|);
    }

    /** `insert_non_data_table(conn, url, table, separator)` for the text the
        fetch returned. */
    method Load(text: Option<string>, sep: char) returns (status: Status)
      requires Valid()
      modifies this`rows
      ensures Valid()
      ensures rows == AfterLoad(|columns|, old(rows), text, sep)
      ensures status == LoadStatus(|columns|, old(rows), text, sep)
    {
      if text.None? || text.value == [] {
        return Failed(NoText);
      }
      var batch := SplitRows(text.value, sep);
      status := InsertOrIgnore(batch);
    }
  }
}
