/**
  The per-indicator tables the loader writes: a table maps a date to the
  value in its NUMERIC(p, s) column, and a row is written with
  INSERT ... ON CONFLICT (data) DO UPDATE SET valor = EXCLUDED.valor, so the
  last write of a date wins.
 */
module Store {
  import opened Options
  import opened Calendar

  /** A PostgreSQL NUMERIC(precision, scale) column type. */
  datatype NumericType = Numeric(precision: nat, scale: nat)

  /** One (date, value) pair handed to the INSERT statement. */
  datatype Row = Row(date: string, value: real)

  /** A table: each date holds the column value as a whole number of units
      of 10^-scale, which is how NUMERIC(p, scale) keeps it. */
  type Table = map<string, int>

  function Abs(n: int): nat {
    if n < 0 then -n else n
  }

  /** The integer nearest to x, halves rounded away from zero, as NUMERIC
      rounds. */
  function RoundHalfAway(x: real): (n: int)
    ensures -0.5 <= n as real - x <= 0.5
    ensures 0.0 <= x ==> 0 <= n && x - 0.5 < n as real
    ensures x < 0.0 ==> n <= 0 && n as real < x + 0.5
  {
    if 0.0 <= x then (x + 0.5).Floor else -((-x + 0.5).Floor)
  }

  /** A whole number is its own rounding. */
  lemma RoundOfInteger(n: int)
    ensures RoundHalfAway(n as real) == n
  {
  }

  /** 10^scale as a real. */
  function Unit(col: NumericType): (u: real)
    ensures u >= 1.0
  {
    Pow10(col.scale) as real
  }

  /** The value a NUMERIC(p, s) column holds for v, in units of 10^-s: v
      rounded to s decimal places, or None when the result needs more than
      p digits in all, where PostgreSQL raises "numeric field overflow". */
  function StoredValue(v: real, col: NumericType): (r: Option<int>)
    ensures r.None? <==> Pow10(col.precision) <= Abs(RoundHalfAway(v * Unit(col)))
    ensures r.Some? ==> Abs(r.value) < Pow10(col.precision)
    ensures r.Some? ==> -0.5 <= r.value as real - v * Unit(col) <= 0.5
  {
    var n := RoundHalfAway(v * Unit(col));
    if Pow10(col.precision) <= Abs(n) then None else Some(n)
  }

  /** A value with at most `scale` decimals, whose digits fit, is stored
      exactly. */
  lemma StoredValueExact(v: real, n: int, col: NumericType)
    requires v * Unit(col) == n as real && Abs(n) < Pow10(col.precision)
    ensures StoredValue(v, col) == Some(n)
  {
    RoundOfInteger(n);
  }

  /** Every value of the rows fits the column. */
  predicate Fits(rows: seq<Row>, col: NumericType) {
    forall i :: 0 <= i < |rows| ==> StoredValue(rows[i].value, col).Some?
  }

  /** cur.executemany(insert_sql, rows) inside one transaction: the rows
      are upserted in order, and an overflow anywhere fails the whole
      statement sequence, which the caller rolls back (None). */
  function Upsert(t: Table, rows: seq<Row>, col: NumericType): Option<Table> {
    if rows == [] then Some(t)
    else
      match Upsert(t, rows[..|rows| - 1], col)
      case None => None
      case Some(t1) =>
        var last := rows[|rows| - 1];
        match StoredValue(last.value, col)
        case None => None
        case Some(v) => Some(t1[last.date := v])
  }

  /** The date -> value pairs a list of rows writes, each date holding the
      value of its last row. */
  function Written(rows: seq<Row>, col: NumericType): Table
    requires Fits(rows, col)
  {
    if rows == [] then map[]
    else
      var last := rows[|rows| - 1];
      Written(rows[..|rows| - 1], col)[last.date := StoredValue(last.value, col).value]
  }

  // ---------------------------------------------------------------------------
  // Properties

  /** A prefix of rows that fit fits too. */
  lemma FitsPrefix(rows: seq<Row>, col: NumericType, n: nat)
    requires Fits(rows, col) && n <= |rows|
    ensures Fits(rows[..n], col)
  {
    forall i | 0 <= i < n ensures StoredValue(rows[..n][i].value, col).Some? {
      assert rows[..n][i] == rows[i];
    }
  }

  /** Rows fit when all but the last fit and the last fits. */
  lemma FitsSnoc(rows: seq<Row>, col: NumericType)
    requires rows != []
    ensures Fits(rows, col) <==> Fits(rows[..|rows| - 1], col) && StoredValue(rows[|rows| - 1].value, col).Some?
  {
    var init := rows[..|rows| - 1];
    assert forall i :: 0 <= i < |init| ==> init[i] == rows[i];
  }

  lemma OverlayUpdate(t: Table, w: Table, k: string, v: int)
    ensures (t + w)[k := v] == t + w[k := v]
  {
  }

  /** An upsert succeeds exactly when every value fits, and then overlays the
      written pairs on the table. */
  lemma {:induction false} UpsertOverlay(t: Table, rows: seq<Row>, col: NumericType)
    ensures Upsert(t, rows, col) == if Fits(rows, col) then Some(t + Written(rows, col)) else None
  {
    if rows == [] {
      assert t + map[] == t;
    } else {
      var init := rows[..|rows| - 1];
      var last := rows[|rows| - 1];
      UpsertOverlay(t, init, col);
      if Fits(rows, col) {
        FitsSnoc(rows, col);
        var w, v := Written(init, col), StoredValue(last.value, col).value;
        assert Upsert(t, init, col) == Some(t + w);
        assert Upsert(t, rows, col) == Some((t + w)[last.date := v]);
        assert Written(rows, col) == w[last.date := v];
        OverlayUpdate(t, w, last.date, v);
      } else {
        UpsertFails(t, rows, col);
      }
    }
  }

  lemma UpsertFails(t: Table, rows: seq<Row>, col: NumericType)
    requires rows != [] && !Fits(rows, col)
    requires Upsert(t, rows[..|rows| - 1], col) == if Fits(rows[..|rows| - 1], col) then Some(t + Written(rows[..|rows| - 1], col)) else None
    ensures Upsert(t, rows, col) == None
  {
    FitsSnoc(rows, col);
  }

  /** The dates written are exactly the dates of the rows. */
  lemma {:induction false} WrittenKeys(rows: seq<Row>, col: NumericType, d: string)
    requires Fits(rows, col)
    ensures d in Written(rows, col) <==> exists i :: 0 <= i < |rows| && rows[i].date == d
  {
    if rows != [] {
      var init := rows[..|rows| - 1];
      FitsPrefix(rows, col, |rows| - 1);
      WrittenKeys(init, col, d);
      if i :| 0 <= i < |init| && init[i].date == d {
        assert rows[i] == init[i];
      }
      if i :| 0 <= i < |rows| && rows[i].date == d {
        if i < |init| {
          assert init[i] == rows[i];
        }
      }
    }
  }

  /** Last write wins: a date holds the stored value of the last row that
      carries it. */
  lemma {:induction false} WrittenLastWins(rows: seq<Row>, col: NumericType, i: nat)
    requires Fits(rows, col) && i < |rows|
    requires forall j :: i < j < |rows| ==> rows[j].date != rows[i].date
    ensures rows[i].date in Written(rows, col)
    ensures Written(rows, col)[rows[i].date] == StoredValue(rows[i].value, col).value
  {
    var init := rows[..|rows| - 1];
    if i < |init| {
      FitsPrefix(rows, col, |rows| - 1);
      assert init[i] == rows[i];
      WrittenLastWins(init, col, i);
    }
  }

  /** Dates that no row carries keep their presence and their value. */
  lemma UpsertOtherDates(t: Table, rows: seq<Row>, col: NumericType, d: string)
    requires Upsert(t, rows, col).Some?
    requires forall i :: 0 <= i < |rows| ==> rows[i].date != d
    ensures d in Upsert(t, rows, col).value <==> d in t
    ensures d in t ==> Upsert(t, rows, col).value[d] == t[d]
  {
    UpsertOverlay(t, rows, col);
    WrittenKeys(rows, col, d);
  }

  /** Upserting the same rows a second time leaves the table unchanged. */
  lemma UpsertIdempotent(t: Table, rows: seq<Row>, col: NumericType)
    requires Upsert(t, rows, col).Some?
    ensures Upsert(Upsert(t, rows, col).value, rows, col) == Upsert(t, rows, col)
  {
    UpsertOverlay(t, rows, col);
    var t1 := Upsert(t, rows, col).value;
    UpsertOverlay(t1, rows, col);
    assert t1 + Written(rows, col) == t1;
  }

  /** Upserting a + b is upserting a, then b. */
  lemma {:induction false} UpsertConcat(t: Table, a: seq<Row>, b: seq<Row>, col: NumericType)
    ensures Upsert(t, a + b, col) == match Upsert(t, a, col) case None => None case Some(t1) => Upsert(t1, b, col)
  {
    if b == [] {
      assert a + b == a;
    } else {
      UpsertConcat(t, a, b[..|b| - 1], col);
      assert (a + b)[..|a + b| - 1] == a + b[..|b| - 1];
    }
  }
}
