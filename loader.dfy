/**
  load_all_data_to_supabase_normalized_v2.py: reads each indicator's JSON
  list, normalises every record's date to YYYY-MM-DD, skips the records it
  cannot use, and upserts the rest into the indicator's table in batches of
  100, each batch committed on its own.
 */
module Loader {
  import opened Options
  import opened Calendar
  import opened PyConv
  import opened Series
  import opened Store
  import opened Sequences

  /** BATCH_SIZE. */
  const BatchSize: nat := 100

  /** The table whose values are large enough to need NUMERIC(20, 2). */
  const PibTable: string := "pib_trimestral"

  // ---------------------------------------------------------------------------
  // normalize_date

  /** normalize_date(date_str): "%d/%m/%Y" is tried first, then "%Y-%m-%d";
      the first that parses is written back as "%Y-%m-%d", and None is
      returned when neither does. */
  function NormalizeDate(s: string): (r: Option<string>)
    ensures r.Some? ==> IsIsoDate(r.value)
    ensures r.Some? <==> Strptime(s, DayMonthYear).Some? || Strptime(s, YearMonthDay).Some?
  {
    match Strptime(s, DayMonthYear)
    case Some(d) => Some(FormatIso(d))
    case None =>
      match Strptime(s, YearMonthDay)
      case Some(d) => Some(FormatIso(d))
      case None => None
  }

  /** A YYYY-MM-DD date comes back unchanged. */
  lemma NormalizeIso(d: Date)
    requires ValidDate(d)
    ensures NormalizeDate(FormatIso(d)) == Some(FormatIso(d))
  {
    StrptimeDmyOfIso(d);
    StrptimeIsoOfIso(d);
  }

  /** A zero-padded DD/MM/YYYY is rewritten as YYYY-MM-DD when the date
      exists, and rejected otherwise (31/02, for one). */
  lemma NormalizeDayMonthYear(day: nat, month: nat, year: nat)
    requires 1 <= day <= 31 && 1 <= month <= 12 && year <= 9999
    ensures NormalizeDate(FormatDayMonthYear(day, month, year))
         == if ValidDate(Date(year, month, day)) then Some(FormatIso(Date(year, month, day))) else None
  {
    StrptimeOfDayMonthYear(day, month, year);
  }

  /** A zero-padded DD/MM/YYYY whose day is 00 or 32..99, or whose month is
      00 or 13..99, is rejected by both formats. */
  lemma NormalizeDayMonthYearOutOfRange(day: nat, month: nat, year: nat)
    requires day < 100 && month < 100 && year <= 9999
    requires !(1 <= day <= 31 && 1 <= month <= 12)
    ensures NormalizeDate(FormatDayMonthYear(day, month, year)) == None
  {
    StrptimeOfBadDayMonthYear(day, month, year);
  }

  /** normalize_date is idempotent on what it returns. */
  lemma NormalizeIdempotent(s: string)
    requires NormalizeDate(s).Some?
    ensures NormalizeDate(NormalizeDate(s).value) == NormalizeDate(s)
  {
    var d :| ValidDate(d) && FormatIso(d) == NormalizeDate(s).value;
    NormalizeIso(d);
  }

  /** February 31 does not exist. */
  lemma NormalizeRejectsFebruary31()
    ensures NormalizeDate("31/02/2023") == None
  {
    assert FormatDayMonthYear(31, 2, 2023) == "31/02/2023" by {
      Digits2(31);
      Digits2(2);
      Digits4(2023);
      assert Digits(31, 2) == "31" && Digits(2, 2) == "02" && Digits(2023, 4) == "2023";
    }
    NormalizeDayMonthYear(31, 2, 2023);
  }

  // ---------------------------------------------------------------------------
  // create_table

  /** The type of the valor column. */
  function ValueColumnType(tableName: string): (t: NumericType)
    ensures t == Numeric(20, 2) <==> tableName == PibTable
    ensures t == Numeric(15, 4) <==> tableName != PibTable
  {
    if tableName == PibTable then Numeric(20, 2) else Numeric(15, 4)
  }

  // ---------------------------------------------------------------------------
  // load_data_batch: validation

  /** One element of the loaded list, read through item.get("data_referencia")
      and item.get("valor"); a missing key or null date is None, and a
      missing or null value is JNull. */
  datatype LoadItem = LoadItem(date: Option<string>, valor: Json)

  /** The row the validation loop appends for an item, or None when it counts
      the item as skipped. Both ValueError and TypeError from float() are
      caught. */
  function ItemRow(item: LoadItem, parse: string -> Option<real>): Option<Row> {
    if item.date.None? || item.valor.JNull? then None
    else
      match NormalizeDate(item.date.value)
      case None => None
      case Some(d) =>
        match FloatOf(item.valor, parse)
        case Float(v) => Some(Row(d, v))
        case FloatValueError => None
        case FloatTypeError => None
  }

  /** An item is used exactly when it has a date and a non-null value, the
      date normalises and float() accepts the value; its row holds the
      normalised date and the float. */
  lemma ItemRowUsable(item: LoadItem, parse: string -> Option<real>)
    ensures ItemRow(item, parse).Some? <==>
      && item.date.Some? && !item.valor.JNull?
      && NormalizeDate(item.date.value).Some? && FloatOf(item.valor, parse).Float?
    ensures ItemRow(item, parse).Some? ==>
      ItemRow(item, parse).value == Row(NormalizeDate(item.date.value).value, FloatOf(item.valor, parse).value)
  {
  }

  /** batch_values after the validation loop: the usable items' rows, in
      input order. */
  function ValidRows(data: seq<LoadItem>, parse: string -> Option<real>): seq<Row> {
    Collect(data, item => ItemRow(item, parse))
  }

  /** The validation loop: builds batch_values and counts records_skipped. */
  method PrepareRows(data: seq<LoadItem>, parse: string -> Option<real>) returns (values: seq<Row>, skipped: nat)
    ensures values == ValidRows(data, parse)
    ensures |values| + skipped == |data|
  {
    values, skipped := [], 0;
    var i := 0;
    while i < |data|
      invariant 0 <= i <= |data|
      invariant values == ValidRows(data[..i], parse)
      invariant |values| + skipped == i
    {
      assert data[..i + 1][..i] == data[..i];
      match ItemRow(data[i], parse) {
        case Some(row) => values := values + [row];
        case None => skipped := skipped + 1;
      }
      i := i + 1;
    }
    assert data[..i] == data;
  }

  /** A row is in batch_values exactly when some item yields it, and the
      rows of a concatenation are the rows of its parts, in order. */
  lemma ValidRowsMembers(data: seq<LoadItem>, parse: string -> Option<real>, row: Row)
    ensures row in ValidRows(data, parse) <==> exists i :: 0 <= i < |data| && ItemRow(data[i], parse) == Some(row)
    ensures |ValidRows(data, parse)| <= |data|
  {
    CollectMembers(data, item => ItemRow(item, parse), row);
    CollectLength(data, item => ItemRow(item, parse));
  }

  // ---------------------------------------------------------------------------
  // load_data_batch: batches

  /** The end of the batch that starts at i: min(i + 100, n). */
  function BatchEnd(i: nat, n: nat): (e: nat)
    requires i <= n
    ensures i <= e <= n && e - i <= BatchSize
    ensures e - i == BatchSize || e == n
    ensures i < n ==> i < e
  {
    if i + BatchSize <= n then i + BatchSize else n
  }

  /** batch_values[i:i + BATCH_SIZE] for i in range(0, len, BATCH_SIZE). */
  function Batches(rows: seq<Row>): (bs: seq<seq<Row>>)
    decreases |rows|
  {
    if rows == [] then []
    else
      var e := BatchEnd(0, |rows|);
      [rows[..e]] + Batches(rows[e..])
  }

  /** The rows of a list of batches, in order. */
  function Flatten(bs: seq<seq<Row>>): seq<Row> {
    if bs == [] then [] else Flatten(bs[..|bs| - 1]) + bs[|bs| - 1]
  }

  lemma {:induction false} FlattenConcat(a: seq<seq<Row>>, b: seq<seq<Row>>)
    ensures Flatten(a + b) == Flatten(a) + Flatten(b)
  {
    if b == [] {
      assert a + b == a;
    } else {
      FlattenConcat(a, b[..|b| - 1]);
      assert (a + b)[..|a + b| - 1] == a + b[..|b| - 1];
    }
  }

  /** There are ceil(n / 100) batches. */
  lemma {:induction false} BatchesCount(rows: seq<Row>)
    ensures |Batches(rows)| == (|rows| + BatchSize - 1) / BatchSize
    decreases |rows|
  {
    if rows != [] {
      var e := BatchEnd(0, |rows|);
      BatchesCount(rows[e..]);
    }
  }

  /** Batch k is the slice [100k, min(100k + 100, n)). */
  lemma {:induction false} BatchAt(rows: seq<Row>, k: nat)
    requires k < |Batches(rows)|
    ensures BatchSize * k < |rows|
    ensures Batches(rows)[k] == rows[BatchSize * k..BatchEnd(BatchSize * k, |rows|)]
    decreases |rows|
  {
    var e := BatchEnd(0, |rows|);
    var rest := rows[e..];
    assert Batches(rows) == [rows[..e]] + Batches(rest);
    if k > 0 {
      BatchAt(rest, k - 1);
      assert Batches(rows)[k] == Batches(rest)[k - 1];
      assert e == BatchSize;
      var j := BatchSize * (k - 1);
      assert BatchSize * k == e + j;
      assert BatchEnd(BatchSize * k, |rows|) == e + BatchEnd(j, |rest|);
      assert rest[j..BatchEnd(j, |rest|)] == rows[e + j..e + BatchEnd(j, |rest|)];
    }
  }

  /** Every batch but the last holds exactly 100 rows; the last holds 1 to
      100. */
  lemma BatchSizes(rows: seq<Row>, k: nat)
    requires k < |Batches(rows)|
    ensures 1 <= |Batches(rows)[k]| <= BatchSize
    ensures k < |Batches(rows)| - 1 ==> |Batches(rows)[k]| == BatchSize
  {
    BatchAt(rows, k);
    BatchesCount(rows);
  }

  function Min(a: nat, b: nat): nat {
    if a <= b then a else b
  }

  /** The first k batches hold the first 100k rows (all of them once k
      reaches the number of batches). */
  lemma {:induction false} BatchesPrefix(rows: seq<Row>, k: nat)
    requires k <= |Batches(rows)|
    ensures Flatten(Batches(rows)[..k]) == rows[..Min(BatchSize * k, |rows|)]
    ensures k == |Batches(rows)| ==> Flatten(Batches(rows)) == rows
  {
    var bs := Batches(rows);
    if k == 0 {
      assert bs[..0] == [];
    } else {
      BatchesPrefix(rows, k - 1);
      BatchAt(rows, k - 1);
      assert bs[..k][..k - 1] == bs[..k - 1];
      assert Flatten(bs[..k]) == Flatten(bs[..k - 1]) + bs[k - 1];
      assert Min(BatchSize * (k - 1), |rows|) == BatchSize * (k - 1);
      assert BatchEnd(BatchSize * (k - 1), |rows|) == Min(BatchSize * k, |rows|);
    }
    if k == |bs| {
      BatchesCount(rows);
      assert bs[..k] == bs;
    }
  }

  // ---------------------------------------------------------------------------
  // load_data_batch: committing the batches

  /** The loop over batches after some of them: the committed table, the
      total_inserted counter, the number of batches committed, and whether a
      batch has failed (which ends the loop). */
  datatype Commit = Commit(table: Table, inserted: nat, batches: nat, failed: bool)

  /** One turn of the batch loop. A batch fails when the database is
      unavailable (outage) or a value overflows the column; it is then
      rolled back and the loop ends. Otherwise it is committed. */
  function CommitStep(c: Commit, batch: seq<Row>, col: NumericType, outage: bool): Commit {
    if c.failed then c
    else if outage then Commit(c.table, c.inserted, c.batches, true)
    else
      match Upsert(c.table, batch, col)
      case None => Commit(c.table, c.inserted, c.batches, true)
      case Some(t) => Commit(t, c.inserted + |batch|, c.batches + 1, false)
  }

  /** The batch loop over bs, starting from table t; outage(k) says whether
      the database fails during batch k. */
  function CommitBatches(t: Table, bs: seq<seq<Row>>, col: NumericType, outage: nat -> bool): Commit {
    if bs == [] then Commit(t, 0, 0, false)
    else CommitStep(CommitBatches(t, bs[..|bs| - 1], col, outage), bs[|bs| - 1], col, outage(|bs| - 1))
  }

  lemma CommitBatchesAppend(t: Table, bs: seq<seq<Row>>, b: seq<Row>, col: NumericType, outage: nat -> bool)
    ensures CommitBatches(t, bs + [b], col, outage) == CommitStep(CommitBatches(t, bs, col, outage), b, col, outage(|bs|))
  {
    assert (bs + [b])[..|bs|] == bs;
  }

  lemma UpdateTwice(m: map<string, Table>, k: string, a: Table, b: Table)
    ensures m[k := a][k := b] == m[k := b]
  {
  }

  /** Turn k of the batch loop commits the slice of rows that batch k holds. */
  lemma CommitBatchesStep(t: Table, rows: seq<Row>, k: nat, col: NumericType, outage: nat -> bool)
    requires k < |Batches(rows)|
    ensures BatchSize * k < |rows|
    ensures var bs := Batches(rows);
      CommitBatches(t, bs[..k + 1], col, outage)
        == CommitStep(CommitBatches(t, bs[..k], col, outage), rows[BatchSize * k..BatchEnd(BatchSize * k, |rows|)],
                      col, outage(k))
  {
    var bs := Batches(rows);
    BatchAt(rows, k);
    assert bs[..k + 1] == bs[..k] + [bs[k]];
    CommitBatchesAppend(t, bs[..k], bs[k], col, outage);
  }

  /** Once a batch has failed, later batches change nothing. */
  lemma {:induction false} FailureIsFinal(t: Table, bs: seq<seq<Row>>, n: nat, col: NumericType, outage: nat -> bool)
    requires n <= |bs| && CommitBatches(t, bs[..n], col, outage).failed
    ensures CommitBatches(t, bs, col, outage) == CommitBatches(t, bs[..n], col, outage)
  {
    if n < |bs| {
      assert bs[..|bs| - 1][..n] == bs[..n];
      FailureIsFinal(t, bs[..|bs| - 1], n, col, outage);
    } else {
      assert bs[..n] == bs;
    }
  }

  /** The batch loop stops at the first batch that fails: the batches
      before it had no outage, and the one that failed had an outage or a
      value that does not fit. */
  lemma {:induction false} CommitStopsAtFailure(t: Table, bs: seq<seq<Row>>, col: NumericType, outage: nat -> bool)
    ensures var c := CommitBatches(t, bs, col, outage);
      && c.batches <= |bs|
      && (c.failed <==> c.batches < |bs|)
      && (forall k :: 0 <= k < c.batches ==> !outage(k))
      && (c.failed ==> outage(c.batches) || Upsert(c.table, bs[c.batches], col).None?)
  {
    if bs != [] {
      var init, last := bs[..|bs| - 1], bs[|bs| - 1];
      CommitStopsAtFailure(t, init, col, outage);
      var c0 := CommitBatches(t, init, col, outage);
      if !c0.failed {
        assert c0.batches == |init|;
      } else {
        assert bs[c0.batches] == init[c0.batches];
      }
    }
  }

  /** The batches before the one that failed (all of them when none failed)
      are committed, as one upsert of their rows in order, and
      total_inserted counts their rows. */
  lemma {:induction false} CommittedPrefix(t: Table, bs: seq<seq<Row>>, col: NumericType, outage: nat -> bool)
    ensures var c := CommitBatches(t, bs, col, outage);
      && c.batches <= |bs|
      && Upsert(t, Flatten(bs[..c.batches]), col) == Some(c.table)
      && c.inserted == |Flatten(bs[..c.batches])|
  {
    if bs == [] {
      assert bs[..0] == [];
    } else {
      var init, last := bs[..|bs| - 1], bs[|bs| - 1];
      CommittedPrefix(t, init, col, outage);
      CommitStopsAtFailure(t, init, col, outage);
      var c0 := CommitBatches(t, init, col, outage);
      var c := CommitBatches(t, bs, col, outage);
      assert c == CommitStep(c0, last, col, outage(|init|));
      if c.batches == c0.batches {
        assert bs[..c.batches] == init[..c0.batches];
      } else {
        assert !c0.failed && c0.batches == |init|;
        assert Upsert(c0.table, last, col) == Some(c.table);
        assert bs[..c.batches] == init + [last];
        assert init[..c0.batches] == init;
        assert Flatten(init + [last]) == Flatten(init) + last by {
          assert (init + [last])[..|init|] == init;
        }
        UpsertConcat(t, Flatten(init), last, col);
      }
    }
  }

  /** When no batch fails, every row is upserted in order and total_inserted
      equals the number of rows. */
  lemma CommitAllSucceeds(t: Table, rows: seq<Row>, col: NumericType, outage: nat -> bool)
    requires !CommitBatches(t, Batches(rows), col, outage).failed
    ensures Upsert(t, rows, col) == Some(CommitBatches(t, Batches(rows), col, outage).table)
    ensures CommitBatches(t, Batches(rows), col, outage).inserted == |rows|
  {
    CommittedPrefix(t, Batches(rows), col, outage);
    CommitStopsAtFailure(t, Batches(rows), col, outage);
    BatchesPrefix(rows, |Batches(rows)|);
    assert Batches(rows)[..|Batches(rows)|] == Batches(rows);
  }

  /** The batch loop fails nowhere when there is no outage and every batch
      fits the column. */
  lemma {:induction false} CommitNoFailure(t: Table, bs: seq<seq<Row>>, col: NumericType, outage: nat -> bool)
    requires forall k :: 0 <= k < |bs| ==> !outage(k) && Fits(bs[k], col)
    ensures !CommitBatches(t, bs, col, outage).failed
  {
    if bs != [] {
      var init, last := bs[..|bs| - 1], bs[|bs| - 1];
      assert forall k :: 0 <= k < |init| ==> init[k] == bs[k];
      CommitNoFailure(t, init, col, outage);
      UpsertOverlay(CommitBatches(t, init, col, outage).table, last, col);
    }
  }

  /** A slice of rows that fit fits too. */
  lemma FitsSlice(rows: seq<Row>, col: NumericType, i: nat, j: nat)
    requires Fits(rows, col) && i <= j <= |rows|
    ensures Fits(rows[i..j], col)
  {
    forall k | 0 <= k < j - i ensures StoredValue(rows[i..j][k].value, col).Some? {
      assert rows[i..j][k] == rows[i + k];
    }
  }

  // ---------------------------------------------------------------------------
  // load_data_batch as a whole

  /** What load_data_batch reports through its messages: no data, no valid
      record, or the valid and skipped counts, total_inserted and the batch
      that failed, if any. */
  datatype LoadReport =
    | NoData
    | NoValidRecords(skipped: nat)
    | Loaded(valid: nat, skipped: nat, inserted: nat, failedBatch: Option<nat>)

  datatype LoadEffect = LoadEffect(table: Table, report: LoadReport)

  /** load_data_batch on a table that holds t. */
  function LoadTable(t: Table, col: NumericType, data: seq<LoadItem>, parse: string -> Option<real>,
                     outage: nat -> bool): LoadEffect
  {
    ValidRowsMembers(data, parse, Row("", 0.0));
    LoadRows(t, col, |data|, ValidRows(data, parse), outage)
  }

  /** load_data_batch once validation has found `rows` among n items. */
  function LoadRows(t: Table, col: NumericType, n: nat, rows: seq<Row>, outage: nat -> bool): LoadEffect
    requires |rows| <= n
  {
    if n == 0 then LoadEffect(t, NoData)
    else if rows == [] then LoadEffect(t, NoValidRecords(n))
    else
      var c := CommitBatches(t, Batches(rows), col, outage);
      LoadEffect(c.table, Loaded(|rows|, n - |rows|, c.inserted, if c.failed then Some(c.batches) else None))
  }

  /** With some valid rows, the load is the batch loop over them. */
  lemma LoadRowsCommits(t: Table, col: NumericType, n: nat, rows: seq<Row>, outage: nat -> bool)
    requires 0 < n && rows != [] && |rows| <= n
    ensures var c := CommitBatches(t, Batches(rows), col, outage);
      LoadRows(t, col, n, rows, outage)
        == LoadEffect(c.table, Loaded(|rows|, n - |rows|, c.inserted, if c.failed then Some(c.batches) else None))
  {
  }

  lemma LoadTableRows(t: Table, col: NumericType, data: seq<LoadItem>, parse: string -> Option<real>, outage: nat -> bool)
    ensures |ValidRows(data, parse)| <= |data|
    ensures LoadTable(t, col, data, parse, outage) == LoadRows(t, col, |data|, ValidRows(data, parse), outage)
  {
    ValidRowsMembers(data, parse, Row("", 0.0));
  }

  /** Empty input, or input without a usable record, writes nothing; every
      other input reports valid + skipped = len(data) with at least one valid
      record. */
  lemma LoadCounts(t: Table, col: NumericType, data: seq<LoadItem>, parse: string -> Option<real>, outage: nat -> bool)
    ensures var e := LoadTable(t, col, data, parse, outage);
      && (ValidRows(data, parse) == [] ==> e.table == t && !e.report.Loaded?)
      && (data == [] <==> e.report == NoData)
      && (e.report.NoValidRecords? ==> e.report.skipped == |data|)
      && (e.report.Loaded? ==> 0 < e.report.valid == |ValidRows(data, parse)|
                               && e.report.valid + e.report.skipped == |data|)
  {
  }

  /** When no batch fails, the table is the old one with every valid row
      upserted in order, and total_inserted is the number of valid rows. */
  lemma LoadSucceeds(t: Table, col: NumericType, n: nat, rows: seq<Row>, outage: nat -> bool)
    requires |rows| <= n
    requires LoadRows(t, col, n, rows, outage).report.Loaded?
    requires LoadRows(t, col, n, rows, outage).report.failedBatch.None?
    ensures Upsert(t, rows, col) == Some(LoadRows(t, col, n, rows, outage).table)
    ensures LoadRows(t, col, n, rows, outage).report.inserted == |rows|
  {
    CommitAllSucceeds(t, rows, col, outage);
  }

  /** When batch k fails, the batches before it stay committed (the first
      100k valid rows), batch k is rolled back and no later batch is tried;
      batch k met an outage or a value that does not fit. */
  lemma LoadFailsAtBatch(t: Table, col: NumericType, n: nat, rows: seq<Row>, outage: nat -> bool, k: nat)
    requires |rows| <= n
    requires LoadRows(t, col, n, rows, outage).report.Loaded?
    requires LoadRows(t, col, n, rows, outage).report.failedBatch == Some(k)
    ensures BatchSize * k < |rows|
    ensures Upsert(t, rows[..BatchSize * k], col) == Some(LoadRows(t, col, n, rows, outage).table)
    ensures LoadRows(t, col, n, rows, outage).report.inserted == BatchSize * k
    ensures outage(k) || Upsert(LoadRows(t, col, n, rows, outage).table,
                                rows[BatchSize * k..BatchEnd(BatchSize * k, |rows|)], col).None?
  {
    var bs := Batches(rows);
    CommittedPrefix(t, bs, col, outage);
    CommitStopsAtFailure(t, bs, col, outage);
    BatchesPrefix(rows, k);
    BatchAt(rows, k);
  }

  /** Upsert semantics of a successful load: each loaded date holds the value
      of the last valid record carrying it. */
  lemma LoadLastWins(t: Table, col: NumericType, n: nat, rows: seq<Row>, outage: nat -> bool, i: nat)
    requires |rows| <= n
    requires LoadRows(t, col, n, rows, outage).report.Loaded?
    requires LoadRows(t, col, n, rows, outage).report.failedBatch.None?
    requires i < |rows| && forall j :: i < j < |rows| ==> rows[j].date != rows[i].date
    ensures rows[i].date in LoadRows(t, col, n, rows, outage).table
    ensures StoredValue(rows[i].value, col) == Some(LoadRows(t, col, n, rows, outage).table[rows[i].date])
  {
    LoadSucceeds(t, col, n, rows, outage);
    UpsertOverlay(t, rows, col);
    WrittenLastWins(rows, col, i);
  }

  /** Loading the same data again after a successful load leaves the table
      as it is. */
  lemma ReloadIdempotent(t: Table, col: NumericType, n: nat, rows: seq<Row>, outage: nat -> bool)
    requires |rows| <= n
    requires LoadRows(t, col, n, rows, outage).report.Loaded?
    requires LoadRows(t, col, n, rows, outage).report.failedBatch.None?
    ensures LoadRows(LoadRows(t, col, n, rows, outage).table, col, n, rows, outage).table
         == LoadRows(t, col, n, rows, outage).table
  {
    var bs := Batches(rows);
    var t1 := LoadRows(t, col, n, rows, outage).table;
    LoadSucceeds(t, col, n, rows, outage);
    CommitStopsAtFailure(t, bs, col, outage);
    UpsertOverlay(t, rows, col);
    forall k | 0 <= k < |bs| ensures !outage(k) && Fits(bs[k], col) {
      BatchAt(rows, k);
      FitsSlice(rows, col, BatchSize * k, BatchEnd(BatchSize * k, |rows|));
    }
    CommitNoFailure(t1, bs, col, outage);
    CommitAllSucceeds(t1, rows, col, outage);
    UpsertIdempotent(t, rows, col);
  }

  // ---------------------------------------------------------------------------
  // The database

  /** The tables main() works on: each table's contents and the type of its
      valor column. */
  class Database {
    var tables: map<string, Table>
    var columns: map<string, NumericType>

    /** Every table has a column type, the one create_table chose. */
    ghost predicate Valid()
      reads this
    {
      && tables.Keys == columns.Keys
      && forall name :: name in columns ==> columns[name] == ValueColumnType(name)
    }

    constructor ()
      ensures Valid() && tables == map[] && columns == map[]
    {
      tables, columns := map[], map[];
    }

    /** create_table: CREATE TABLE IF NOT EXISTS, with the valor column type
        chosen from the table name. */
    method CreateTable(name: string)
      requires Valid()
      modifies this
      ensures Valid()
      ensures name in old(tables) ==> tables == old(tables) && columns == old(columns)
      ensures name !in old(tables) ==>
        tables == old(tables)[name := map[]] && columns == old(columns)[name := ValueColumnType(name)]
    {
      if name !in tables {
        tables := tables[name := map[]];
        columns := columns[name := ValueColumnType(name)];
      }
    }

    /** load_data_batch(conn, name, data). main() creates every table before
        loading it. Only the named table changes; the others keep what
        earlier loads committed. */
    method LoadDataBatch(name: string, data: seq<LoadItem>, parse: string -> Option<real>, outage: nat -> bool)
      returns (report: LoadReport)
      requires Valid() && name in tables
      modifies this
      ensures Valid() && columns == old(columns)
      ensures var e := LoadTable(old(tables)[name], columns[name], data, parse, outage);
        tables == old(tables)[name := e.table] && report == e.report
    {
      var t0, col := tables[name], columns[name];
      LoadTableRows(t0, col, data, parse, outage);
      if data == [] {
        report := NoData;
        assert tables == old(tables)[name := t0];
        return;
      }
      var values, skipped := PrepareRows(data, parse);
      if values == [] {
        report := NoValidRecords(skipped);
        assert tables == old(tables)[name := t0];
        return;
      }
      var inserted, k, failed := CommitInBatches(name, values, outage);
      report := Loaded(|values|, skipped, inserted, if failed then Some(k) else None);
      LoadRowsCommits(t0, col, |data|, values, outage);
      assert tables.Keys == old(tables).Keys;
    }

    /** The batch loop of load_data_batch: each slice of 100 rows is upserted
        and committed in turn; the first slice that fails is rolled back and
        ends the loop. */
    method CommitInBatches(name: string, values: seq<Row>, outage: nat -> bool)
      returns (inserted: nat, k: nat, failed: bool)
      requires name in tables && name in columns
      modifies this
      ensures columns == old(columns) && name in tables
      ensures var c := CommitBatches(old(tables)[name], Batches(values), columns[name], outage);
        && tables == old(tables)[name := c.table]
        && c == Commit(tables[name], inserted, k, failed)
    {
      var t0, col := tables[name], columns[name];
      var bs := Batches(values);
      var t := t0;
      inserted, k, failed := 0, 0, false;
      assert tables == old(tables)[name := t];
      while k < |bs|
        invariant 0 <= k <= |bs|
        invariant CommitBatches(t0, bs[..k], col, outage) == Commit(t, inserted, k, false)
        invariant tables == old(tables)[name := t] && columns == old(columns)
      {
        CommitBatchesStep(t0, values, k, col, outage);
        var i := BatchSize * k;
        var batch := values[i..BatchEnd(i, |values|)];
        if outage(k) {
          failed := true;
        } else {
          match Upsert(t, batch, col) {
            case None => failed := true;
            case Some(t1) =>
              UpdateTwice(old(tables), name, t, t1);
              t, inserted := t1, inserted + |batch|;
              tables := tables[name := t1];
          }
        }
        if failed {
          FailureIsFinal(t0, bs, k + 1, col, outage);
          break;
        }
        k := k + 1;
      }
      if !failed {
        assert bs[..k] == bs;
      }
    }
  }
}
