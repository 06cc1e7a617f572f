/**
  get_ibge_pib_data.py: turns the SIDRA quarterly-GDP payload (table 1620)
  into records dated on the last day of each quarter, sorted by date.

  The payload is a list of rows whose first row is a header. Each row is read
  through its "D3C" key (period code YYYYQQ) and its "V" key (the value text).
 */
module IbgePib {
  import opened Options
  import opened Calendar
  import opened Sorting
  import opened PyConv
  import opened Series
  import opened Sequences

  /** One payload row: item.get("D3C") and item.get("V"); None where the key
      is missing or null. */
  datatype SidraRow = SidraRow(period: Option<string>, value: Option<string>)

  /** A call that either returns a value or raises ValueError. */
  datatype Raised<T> = Returned(value: T) | RaisedValueError

  /** The sentinel SIDRA writes for a value that is not available. */
  const NotAvailable: string := "..."

  /** get_last_day_of_quarter(year_str, quarter_str). int() raises on a
      non-integer text and datetime() on a year outside 1..9999; a quarter
      outside 1..4 returns None before any date is built. datetime() raises
      OverflowError rather than ValueError for a year beyond a C int, but the
      only caller passes at most four characters as the year text, so that
      year never occurs (see YearTextFitsCInt). */
  function LastDayOfQuarter(yearStr: string, quarterStr: string): (r: Raised<Option<Date>>)
    ensures ParseInt(yearStr).None? || ParseInt(quarterStr).None? ==> r == RaisedValueError
    ensures ParseInt(yearStr).Some? && ParseInt(quarterStr).Some? ==>
      var year, quarter := ParseInt(yearStr).value, ParseInt(quarterStr).value;
      r == if quarter < 1 || 4 < quarter then Returned(None)
           else if year < MinYear || MaxYear < year then RaisedValueError
           else Returned(Some(Date(year, 3 * quarter, DaysInMonth(year, 3 * quarter))))
    ensures r.Returned? && r.value.Some? ==> ValidDate(r.value.value)
  {
    match ParseInt(yearStr)
    case None => RaisedValueError
    case Some(year) =>
      match ParseInt(quarterStr)
      case None => RaisedValueError
      case Some(quarter) =>
        if quarter == 1 then EndOfQuarter(year, 3, 31)
        else if quarter == 2 then EndOfQuarter(year, 6, 30)
        else if quarter == 3 then EndOfQuarter(year, 9, 30)
        else if quarter == 4 then EndOfQuarter(year, 12, 31)
        else Returned(None)
  }

  /** datetime(year, month, day) for the fixed quarter ends. */
  function EndOfQuarter(year: int, month: int, day: int): Raised<Option<Date>> {
    if MinYear <= year <= MaxYear then Returned(Some(Date(year, month, day))) else RaisedValueError
  }

  /** The guard of the loop body: a period code and a value text that are
      both non-empty, and a value that is not the "..." sentinel. */
  predicate IsComplete(row: SidraRow) {
    && row.period.Some? && row.period.value != ""
    && row.value.Some? && row.value.value != "" && row.value.value != NotAvailable
  }

  /** What the loop body appends for one row, or None when the row is skipped
      (incomplete, ValueError, or an invalid quarter). The code is cut after
      its first four characters: year_str = code[:4], quarter_str = code[4:]. */
  function ConvertRow(row: SidraRow, parse: string -> Option<real>): (r: Option<Observation>)
    ensures !IsComplete(row) ==> r == None
    ensures r.Some? ==> IsIsoDate(r.value.date) && parse(row.value.value) == Some(r.value.value)
    ensures IsComplete(row) ==>
      var code := row.period.value;
      var cut := if |code| < 4 then |code| else 4;
      var year, quarter := ParseInt(code[..cut]), ParseInt(code[cut..]);
      (r.Some? <==>
        && year.Some? && quarter.Some? && 1 <= quarter.value <= 4
        && MinYear <= year.value <= MaxYear && parse(row.value.value).Some?)
      && (r.Some? ==>
        r.value == Observation(FormatIso(Date(year.value, 3 * quarter.value, DaysInMonth(year.value, 3 * quarter.value))),
                               parse(row.value.value).value))
  {
    if !IsComplete(row) then None
    else
      var code := row.period.value;
      var cut := if |code| < 4 then |code| else 4;
      match LastDayOfQuarter(code[..cut], code[cut..])
      case RaisedValueError => None
      case Returned(None) => None
      case Returned(Some(d)) =>
        match parse(row.value.value)
        case None => None
        case Some(v) => Some(Observation(FormatIso(d), v))
  }

  /** The list the loop builds from the data rows, in row order. */
  function Accepted(rows: seq<SidraRow>, parse: string -> Option<real>): seq<Observation> {
    Collect(rows, row => ConvertRow(row, parse))
  }

  /** The list written to pib_trimestral.json. */
  function Output(raw: seq<SidraRow>, parse: string -> Option<real>): seq<Observation> {
    if |raw| > 1 then SortByDate(Accepted(raw[1..], parse)) else []
  }

  /** The script's processing: skip the header, convert each data row,
      append what survives, then sort in place. */
  method ProcessPayload(raw: seq<SidraRow>, parse: string -> Option<real>) returns (processed: seq<Observation>)
    ensures processed == Output(raw, parse)
    ensures |raw| <= 1 ==> processed == []
    ensures |raw| > 1 ==> |processed| <= |raw| - 1
    ensures SortedBy(processed, DateKey, LexLe)
    ensures forall o :: o in processed ==> IsIsoDate(o.date)
  {
    processed := [];
    if |raw| > 1 {
      processed := ConvertRows(raw[1..], parse);
      processed := SortByDate(processed);
      AcceptedLength(raw[1..], parse);
    }
    OutputDates(raw, parse);
  }

  /** The for loop over raw_data[1:]: convert each row and append what
      survives. */
  method ConvertRows(rows: seq<SidraRow>, parse: string -> Option<real>) returns (processed: seq<Observation>)
    ensures processed == Accepted(rows, parse)
  {
    processed := [];
    var i := 0;
    while i < |rows|
      invariant 0 <= i <= |rows|
      invariant processed == Accepted(rows[..i], parse)
    {
      var out := ConvertRow(rows[i], parse);
      AcceptedStep(rows, i, parse);
      if out.Some? {
        processed := processed + [out.value];
      }
      i := i + 1;
    }
    assert rows[..i] == rows;
  }

  // ---------------------------------------------------------------------------
  // Properties

  /** The year text ConvertRow hands to LastDayOfQuarter, code[:4], is at
      most four characters, so the year it spells lies in -999..9999 and
      datetime() never sees one beyond a C int: the OverflowError path of
      the constructor is out of reach from the loop. */
  lemma YearTextFitsCInt(code: string)
    ensures var cut := if |code| < 4 then |code| else 4;
      ParseInt(code[..cut]).Some? ==> -999 <= ParseInt(code[..cut]).value <= 9999
  {
    var cut := if |code| < 4 then |code| else 4;
    ParseIntOfShort(code[..cut]);
  }

  /** One more row appends at most its own record. */
  lemma AcceptedSnoc(rows: seq<SidraRow>, row: SidraRow, parse: string -> Option<real>)
    ensures Accepted(rows + [row], parse) == Accepted(rows, parse) + Used(ConvertRow(row, parse))
  {
    assert (rows + [row])[..|rows|] == rows;
  }

  /** The loop step over the rows: after row i, the list has grown by that
      row's record, if any. */
  lemma AcceptedStep(rows: seq<SidraRow>, i: nat, parse: string -> Option<real>)
    requires i < |rows|
    ensures ConvertRow(rows[i], parse).Some? ==>
      Accepted(rows[..i + 1], parse) == Accepted(rows[..i], parse) + [ConvertRow(rows[i], parse).value]
    ensures ConvertRow(rows[i], parse).None? ==> Accepted(rows[..i + 1], parse) == Accepted(rows[..i], parse)
  {
    assert rows[..i + 1] == rows[..i] + [rows[i]];
    AcceptedSnoc(rows[..i], rows[i], parse);
  }

  /** Each data row contributes at most one record. */
  lemma AcceptedLength(rows: seq<SidraRow>, parse: string -> Option<real>)
    ensures |Accepted(rows, parse)| <= |rows|
  {
    CollectLength(rows, row => ConvertRow(row, parse));
  }

  /** Rows are converted independently: a row that fails, for whatever reason,
      removes only its own record, and the loop carries on. */
  lemma AcceptedConcat(a: seq<SidraRow>, b: seq<SidraRow>, parse: string -> Option<real>)
    ensures Accepted(a + b, parse) == Accepted(a, parse) + Accepted(b, parse)
  {
    CollectConcat(a, b, row => ConvertRow(row, parse));
  }

  /** A record is in the output exactly when some data row converts to it:
      nothing is invented. */
  lemma AcceptedMembers(rows: seq<SidraRow>, parse: string -> Option<real>, o: Observation)
    ensures o in Accepted(rows, parse) <==> exists i :: 0 <= i < |rows| && ConvertRow(rows[i], parse) == Some(o)
  {
    CollectMembers(rows, row => ConvertRow(row, parse), o);
  }

  /** Every written date is a strftime("%Y-%m-%d") date. */
  lemma OutputDates(raw: seq<SidraRow>, parse: string -> Option<real>)
    ensures forall o :: o in Output(raw, parse) ==> IsIsoDate(o.date)
  {
    if |raw| > 1 {
      forall o | o in Output(raw, parse)
        ensures IsIsoDate(o.date)
      {
        assert o in multiset(Output(raw, parse));
        AcceptedMembers(raw[1..], parse, o);
        var i :| 0 <= i < |raw[1..]| && ConvertRow(raw[1..][i], parse) == Some(o);
      }
    }
  }

  /** The first row is a header and is never converted, whatever it holds. */
  lemma HeaderIgnored(h1: SidraRow, h2: SidraRow, rows: seq<SidraRow>, parse: string -> Option<real>)
    ensures Output([h1] + rows, parse) == Output([h2] + rows, parse)
    ensures Output([h1], parse) == []
  {
    assert ([h1] + rows)[1..] == rows == ([h2] + rows)[1..];
  }

  /** No deduplication: two data rows that carry the same quarter, with
      the same or different values, both reach the output, in row order. */
  lemma DuplicatesKept(header: SidraRow, r1: SidraRow, r2: SidraRow, parse: string -> Option<real>)
    requires ConvertRow(r1, parse).Some? && ConvertRow(r2, parse).Some?
    requires ConvertRow(r1, parse).value.date == ConvertRow(r2, parse).value.date
    ensures Output([header, r1, r2], parse) == [ConvertRow(r1, parse).value, ConvertRow(r2, parse).value]
  {
    var o1, o2 := ConvertRow(r1, parse).value, ConvertRow(r2, parse).value;
    assert Accepted([r1, r2], parse) == [o1, o2] by {
      assert [r1, r2] == [r1] + [r2];
      AcceptedConcat([r1], [r2], parse);
      AcceptedSingle(r1, parse);
      AcceptedSingle(r2, parse);
    }
    assert SortByDate([o1, o2]) == [o1, o2] by {
      LexLeReflexive(o1.date);
      SortByDatePair(o1, o2);
    }
    assert [header, r1, r2][1..] == [r1, r2];
  }

  /** int() reads the two halves of a zero-padded YYYYQQ code as the year
      and the quarter. */
  lemma SplitPeriodCode(year: nat, quarter: nat)
    requires year <= MaxYear && quarter <= 99
    ensures var code := Digits(year, 4) + Digits(quarter, 2);
      && |code| == 6
      && ParseInt(code[..4]) == Some(year as int)
      && ParseInt(code[4..]) == Some(quarter as int)
  {
    var code := Digits(year, 4) + Digits(quarter, 2);
    assert code[..4] == Digits(year, 4) && code[4..] == Digits(quarter, 2);
    ParseIntOfDigits(Digits(year, 4));
    ParseIntOfDigits(Digits(quarter, 2));
    DigitsRoundTrip(year, 4);
    DigitsRoundTrip(quarter, 2);
  }

  /** A period code YYYYQQ with a quarter 1..4 is dated on the last day of
      that quarter: March 31, June 30, September 30 or December 31. */
  lemma ConvertPeriodCode(year: nat, quarter: nat, text: string, parse: string -> Option<real>)
    requires MinYear <= year <= MaxYear && 1 <= quarter <= 4
    requires text != "" && text != NotAvailable && parse(text).Some?
    ensures ConvertRow(SidraRow(Some(Digits(year, 4) + Digits(quarter, 2)), Some(text)), parse)
         == Some(Observation(FormatIso(Date(year, 3 * quarter, DaysInMonth(year, 3 * quarter))), parse(text).value))
  {
    var code := Digits(year, 4) + Digits(quarter, 2);
    var row := SidraRow(Some(code), Some(text));
    SplitPeriodCode(year, quarter);
    var d := Date(year, 3 * quarter, DaysInMonth(year, 3 * quarter));
    assert IsComplete(row);
    assert LastDayOfQuarter(code[..4], code[4..]) == Returned(Some(d));
    assert ConvertRow(row, parse) == Some(Observation(FormatIso(d), parse(text).value));
  }

  /** A quarter digit outside 1..4 drops the row. */
  lemma InvalidQuarterDropped(year: nat, quarter: nat, text: string, parse: string -> Option<real>)
    requires year <= MaxYear && (quarter == 0 || 5 <= quarter <= 99)
    ensures ConvertRow(SidraRow(Some(Digits(year, 4) + Digits(quarter, 2)), Some(text)), parse) == None
  {
    var code := Digits(year, 4) + Digits(quarter, 2);
    SplitPeriodCode(year, quarter);
    assert LastDayOfQuarter(code[..4], code[4..]) == Returned(None);
  }

  lemma ExampleCodes()
    ensures Digits(2023, 4) + Digits(1, 2) == "202301"
    ensures Digits(2023, 4) + Digits(4, 2) == "202304"
  {
    Digits4(2023);
    assert Digits(2023, 4) == "2023";
    Digits2(1);
    assert Digits(1, 2) == "01";
    Digits2(4);
    assert Digits(4, 2) == "04";
  }

  /** The date text of each quarter: YYYY-03-31, YYYY-06-30, YYYY-09-30 and
      YYYY-12-31. */
  lemma MonthDaySpelled(year: int, month: int, day: int, text: string)
    requires ValidDate(Date(year, month, day))
    requires text == ['-', DigitChar(month / 10 % 10), DigitChar(month % 10), '-', DigitChar(day / 10 % 10), DigitChar(day % 10)]
    ensures FormatIso(Date(year, month, day)) == Digits(year, 4) + text
  {
    FormatIsoSpelled(Date(year, month, day));
    Digits2(month);
    Digits2(day);
  }

  lemma ExampleDates()
    ensures FormatIso(Date(2023, 3, DaysInMonth(2023, 3))) == "2023-03-31"
    ensures FormatIso(Date(2023, 12, DaysInMonth(2023, 12))) == "2023-12-31"
  {
    ExampleMarchEnd();
    ExampleDecemberEnd();
  }

  lemma ExampleMarchEnd()
    ensures FormatIso(Date(2023, 3, 31)) == "2023-03-31"
  {
    MonthDaySpelled(2023, 3, 31, "-03-31");
    Digits4(2023);
  }

  lemma ExampleDecemberEnd()
    ensures FormatIso(Date(2023, 12, 31)) == "2023-12-31"
  {
    MonthDaySpelled(2023, 12, 31, "-12-31");
    Digits4(2023);
  }

  lemma ExampleRows(parse: string -> Option<real>)
    requires parse("1000") == Some(1000.0) && parse("1200") == Some(1200.0)
    ensures ConvertRow(SidraRow(Some("202301"), Some("1000")), parse) == Some(Observation("2023-03-31", 1000.0))
    ensures ConvertRow(SidraRow(Some("202302"), Some("...")), parse) == None
    ensures ConvertRow(SidraRow(Some("202304"), Some("1200")), parse) == Some(Observation("2023-12-31", 1200.0))
  {
    ExampleCodes();
    ExampleDates();
    ConvertPeriodCode(2023, 1, "1000", parse);
    ConvertPeriodCode(2023, 4, "1200", parse);
  }

  /** The output for a header and three data rows of which the middle one
      is dropped. */
  lemma OutputSkippingMiddle(header: SidraRow, r1: SidraRow, r2: SidraRow, r3: SidraRow, parse: string -> Option<real>)
    requires ConvertRow(r1, parse).Some? && ConvertRow(r2, parse).None? && ConvertRow(r3, parse).Some?
    ensures var o1, o3 := ConvertRow(r1, parse).value, ConvertRow(r3, parse).value;
      && Output([header, r1, r2, r3], parse) == SortByDate([o1, o3])
      && Output([header, r1, r2, r3], parse) == if LexLe(o1.date, o3.date) then [o1, o3] else [o3, o1]
  {
    var o1, o3 := ConvertRow(r1, parse).value, ConvertRow(r3, parse).value;
    assert Accepted([r1, r2, r3], parse) == [o1, o3] by {
      AcceptedThree(r1, r2, r3, parse);
      assert Used(ConvertRow(r1, parse)) == [o1];
      assert Used(ConvertRow(r2, parse)) == [];
      assert Used(ConvertRow(r3, parse)) == [o3];
    }
    if LexLe(o1.date, o3.date) {
      SortByDatePair(o1, o3);
    } else {
      SortByDatePairSwapped(o1, o3);
    }
    assert [header, r1, r2, r3][1..] == [r1, r2, r3];
  }

  /** Three rows contribute their records in row order. */
  lemma AcceptedThree(r1: SidraRow, r2: SidraRow, r3: SidraRow, parse: string -> Option<real>)
    ensures Accepted([r1, r2, r3], parse)
         == Used(ConvertRow(r1, parse)) + Used(ConvertRow(r2, parse)) + Used(ConvertRow(r3, parse))
  {
    assert [r1, r2, r3] == [r1] + [r2, r3] && [r2, r3] == [r2] + [r3];
    AcceptedConcat([r1], [r2, r3], parse);
    AcceptedConcat([r2], [r3], parse);
    AcceptedSingle(r1, parse);
    AcceptedSingle(r2, parse);
    AcceptedSingle(r3, parse);
  }

  lemma AcceptedSingle(row: SidraRow, parse: string -> Option<real>)
    ensures Accepted([row], parse) == Used(ConvertRow(row, parse))
  {
    var e: seq<SidraRow> := [];
    assert e + [row] == [row];
    AcceptedSnoc(e, row, parse);
  }

  lemma ExampleOrder()
    ensures LexLe("2023-03-31", "2023-12-31")
  {
    ExampleDates();
    IsoOrderIsChronological(Date(2023, 3, 31), Date(2023, 12, 31));
  }

  /** A header and three quarters of 2023, the second not available: the
      first and fourth quarters are written, dated on their last days. */
  lemma ExamplePayload(header: SidraRow, parse: string -> Option<real>)
    requires parse("1000") == Some(1000.0) && parse("1200") == Some(1200.0)
    ensures Output([header, SidraRow(Some("202301"), Some("1000")), SidraRow(Some("202302"), Some("...")),
                    SidraRow(Some("202304"), Some("1200"))], parse)
         == [Observation("2023-03-31", 1000.0), Observation("2023-12-31", 1200.0)]
  {
    ExampleRows(parse);
    ExampleOrder();
    OutputSkippingMiddle(header, SidraRow(Some("202301"), Some("1000")), SidraRow(Some("202302"), Some("...")),
                         SidraRow(Some("202304"), Some("1200")), parse);
  }
}
