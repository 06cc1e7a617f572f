/**
  get_worldbank_gdp_data_debug.py: turns the World Bank indicator payload for
  Brazil's GDP into records dated on December 31 of each year.

  The payload is a JSON list whose element 0 holds page metadata and whose
  element 1 is the list of data points. Points of another country, without a
  date or with a null value are passed over; a year or a value that raises
  ValueError skips its point; any other exception ends the scan, and the
  records collected so far are written unsorted.
 */
module WorldBankGdp {
  import opened Options
  import opened Calendar
  import opened Sorting
  import opened PyConv
  import opened Series
  import opened Sequences

  /** COUNTRY_CODE. */
  const CountryCode: string := "BRA"

  /** One element of the data list: a JSON object read through its
      "countryiso3code", "date" and "value" keys, or anything else, on which
      point.get raises AttributeError. */
  datatype WbPoint =
    | WbPoint(country: Option<string>, date: Option<string>, value: Json)
    | NotAnObject

  /** One element of the top-level list: a list of points, or any other JSON
      value. */
  datatype WbElement = PointList(points: seq<WbPoint>) | OtherElement

  /** What the loop body does with one point: append a record, pass over the
      point, or let an exception escape to the outer handler. */
  datatype Outcome = Keep(o: Observation) | Skip | Abort

  /** The range of a C int: datetime() reads its year argument as one, and
      raises OverflowError (not ValueError) for a year outside it. */
  const CIntMin: int := -0x8000_0000
  const CIntMax: int := 0x7FFF_FFFF

  predicate FitsCInt(n: int) {
    CIntMin <= n <= CIntMax
  }

  /** The December 31 date string of a year datetime accepts. */
  function YearEnd(year: int): (s: string)
    requires MinYear <= year <= MaxYear
    ensures |s| == 10 && IsIsoDate(s)
  {
    FormatIso(Date(year, 12, 31))
  }

  /** A string YearEnd can produce. */
  ghost predicate IsYearEnd(s: string) {
    exists year :: MinYear <= year <= MaxYear && YearEnd(year) == s
  }

  /** The guard of the loop body: the Brazilian series, a non-empty date and
      a value that is not null. */
  predicate Selected(country: Option<string>, date: Option<string>, value: Json) {
    country == Some(CountryCode) && date.Some? && date.value != "" && !value.JNull?
  }

  /** The loop body for one point. int() and datetime() raise ValueError on a
      bad year, float() raises ValueError on a bad numeric text (all caught
      by the inner handler); datetime() raises OverflowError on a year beyond
      a C int, and float() TypeError on a list or an object (not caught
      there). */
  function PointOutcome(p: WbPoint, parse: string -> Option<real>): (r: Outcome)
    ensures p.NotAnObject? ==> r == Abort
    ensures p.WbPoint? && !Selected(p.country, p.date, p.value) ==> r == Skip
    ensures r.Keep? ==>
      && p.WbPoint? && Selected(p.country, p.date, p.value)
      && ParseInt(p.date.value).Some? && MinYear <= ParseInt(p.date.value).value <= MaxYear
      && YearEnd(ParseInt(p.date.value).value) == r.o.date
      && FloatOf(p.value, parse) == Float(r.o.value)
    ensures && p.WbPoint? && Selected(p.country, p.date, p.value) && ParseInt(p.date.value).Some?
            && MinYear <= ParseInt(p.date.value).value <= MaxYear && FloatOf(p.value, parse).Float? ==>
      r == Keep(Observation(YearEnd(ParseInt(p.date.value).value), FloatOf(p.value, parse).value))
    ensures r.Abort? <==>
      || p.NotAnObject?
      || (&& p.WbPoint? && Selected(p.country, p.date, p.value) && ParseInt(p.date.value).Some?
          && (|| !FitsCInt(ParseInt(p.date.value).value)
              || (&& MinYear <= ParseInt(p.date.value).value <= MaxYear
                  && (p.value.JArray? || p.value.JObject?))))
  {
    match p
    case NotAnObject => Abort
    case WbPoint(country, date, value) =>
      if !Selected(country, date, value) then Skip
      else
        match ParseInt(date.value)
        case None => Skip
        case Some(year) =>
          if !FitsCInt(year) then Abort
          else if year < MinYear || MaxYear < year then Skip
          else
            match FloatOf(value, parse)
            case FloatValueError => Skip
            case FloatTypeError => Abort
            case Float(v) => Keep(Observation(YearEnd(year), v))
  }

  /** The state of the loop after some points: the records appended so far
      and whether an exception has ended it. */
  datatype Scan = Scan(kept: seq<Observation>, aborted: bool)

  /** One turn of the loop: nothing happens once it has been cut short. */
  function Step(before: Scan, out: Outcome): Scan {
    if before.aborted then before
    else
      match out
      case Keep(o) => Scan(before.kept + [o], false)
      case Skip => before
      case Abort => Scan(before.kept, true)
  }

  function ScanPoints(points: seq<WbPoint>, parse: string -> Option<real>): Scan {
    if points == [] then Scan([], false)
    else Step(ScanPoints(points[..|points| - 1], parse), PointOutcome(points[|points| - 1], parse))
  }

  /** The if-guard at the top: a list with more than one element whose
      element 1 is a non-empty list. */
  predicate HasPoints(raw: Option<seq<WbElement>>) {
    raw.Some? && |raw.value| > 1 && raw.value[1].PointList? && raw.value[1].points != []
  }

  /** The list written to gdp_worldbank_usd.json: sorted when the loop
      finished, in append order when an exception cut it short. */
  function Output(raw: Option<seq<WbElement>>, parse: string -> Option<real>): seq<Observation> {
    if !HasPoints(raw) then []
    else
      var scan := ScanPoints(raw.value[1].points, parse);
      if scan.aborted then scan.kept else SortByDate(scan.kept)
  }

  /** The script's processing. `raw` is the decoded response, None when it is
      not a JSON list. */
  method FetchGdp(raw: Option<seq<WbElement>>, parse: string -> Option<real>) returns (processed: seq<Observation>)
    ensures processed == Output(raw, parse)
    ensures !HasPoints(raw) ==> processed == []
    ensures HasPoints(raw) ==> |processed| <= |raw.value[1].points|
    ensures HasPoints(raw) && !ScanPoints(raw.value[1].points, parse).aborted ==> SortedBy(processed, DateKey, LexLe)
    ensures forall o :: o in processed ==> IsYearEnd(o.date)
  {
    processed := [];
    if HasPoints(raw) {
      var points := raw.value[1].points;
      var i := 0;
      var aborted := false;
      while i < |points|
        invariant 0 <= i <= |points|
        invariant ScanPoints(points[..i], parse) == Scan(processed, aborted)
        invariant aborted ==> ScanPoints(points, parse) == Scan(processed, true)
      {
        var out := PointOutcome(points[i], parse);
        assert points[..i + 1] == points[..i] + [points[i]];
        ScanAppend(points[..i], points[i], parse);
        if out.Keep? {
          processed := processed + [out.o];
        } else if out.Abort? {
          aborted := true;
          AbortIsFinal(points, i + 1, parse);
        }
        if aborted {
          break;
        }
        i := i + 1;
      }
      if !aborted {
        assert points[..i] == points;
        processed := SortByDate(processed);
      }
      ScanLength(points, parse);
    }
    OutputDates(raw, parse);
  }

  // ---------------------------------------------------------------------------
  // Properties

  /** Once an exception has ended the loop, later points change nothing. */
  lemma {:induction false} AbortIsFinal(points: seq<WbPoint>, n: nat, parse: string -> Option<real>)
    requires n <= |points| && ScanPoints(points[..n], parse).aborted
    ensures ScanPoints(points, parse) == ScanPoints(points[..n], parse)
  {
    if n < |points| {
      assert points[..|points| - 1][..n] == points[..n];
      AbortIsFinal(points[..|points| - 1], n, parse);
    } else {
      assert points[..n] == points;
    }
  }

  /** Each point contributes at most one record. */
  lemma {:induction false} ScanLength(points: seq<WbPoint>, parse: string -> Option<real>)
    ensures |ScanPoints(points, parse).kept| <= |points|
  {
    if points != [] {
      ScanLength(points[..|points| - 1], parse);
    }
  }

  /** The loop is cut short exactly when some point raises an exception the
      inner handler does not catch. */
  lemma {:induction false} ScanAborts(points: seq<WbPoint>, parse: string -> Option<real>)
    ensures ScanPoints(points, parse).aborted <==> exists i :: 0 <= i < |points| && PointOutcome(points[i], parse).Abort?
  {
    if points != [] {
      var init := points[..|points| - 1];
      ScanAborts(init, parse);
      if i :| 0 <= i < |init| && PointOutcome(init[i], parse).Abort? {
        assert points[i] == init[i];
      }
      if i :| 0 <= i < |points| && PointOutcome(points[i], parse).Abort? {
        if i < |init| {
          assert init[i] == points[i];
        }
      }
    }
  }

  /** Every record comes from a point whose outcome is to keep it. */
  lemma {:induction false} ScanKeptFromPoints(points: seq<WbPoint>, parse: string -> Option<real>, o: Observation)
    requires o in ScanPoints(points, parse).kept
    ensures exists i :: 0 <= i < |points| && PointOutcome(points[i], parse) == Keep(o)
  {
    var init := points[..|points| - 1];
    var last := points[|points| - 1];
    if o in ScanPoints(init, parse).kept {
      ScanKeptFromPoints(init, parse, o);
      var i :| 0 <= i < |init| && PointOutcome(init[i], parse) == Keep(o);
      assert points[i] == init[i];
    } else {
      assert PointOutcome(last, parse) == Keep(o);
    }
  }

  /** The record of every point whose outcome is to keep it is in the list,
      unless an earlier point ended the loop, whether or not a later point
      does. */
  lemma {:induction false} ScanKeepsPoints(points: seq<WbPoint>, parse: string -> Option<real>, i: nat)
    requires i < |points| && PointOutcome(points[i], parse).Keep?
    requires forall j :: 0 <= j <= i ==> !PointOutcome(points[j], parse).Abort?
    ensures PointOutcome(points[i], parse).o in ScanPoints(points, parse).kept
  {
    var init := points[..|points| - 1];
    var before := ScanPoints(init, parse);
    var out := PointOutcome(points[|points| - 1], parse);
    assert ScanPoints(points, parse) == Step(before, out);
    StepKeeps(before, out);
    if i < |init| {
      assert init[i] == points[i];
      forall j | 0 <= j <= i
        ensures !PointOutcome(init[j], parse).Abort?
      {
        assert init[j] == points[j];
      }
      ScanKeepsPoints(init, parse, i);
    } else {
      forall j | 0 <= j < |init|
        ensures !PointOutcome(init[j], parse).Abort?
      {
        assert init[j] == points[j];
      }
      ScanAborts(init, parse);
    }
  }

  /** A step never drops what was kept before, and a step the loop reaches
      keeps the record of a point whose outcome is to keep it. */
  lemma StepKeeps(before: Scan, out: Outcome)
    ensures forall o :: o in before.kept ==> o in Step(before, out).kept
    ensures !before.aborted && out.Keep? ==> out.o in Step(before, out).kept
  {
  }

  /** The record a point contributes when the loop reaches it. */
  function Kept(p: WbPoint, parse: string -> Option<real>): Option<Observation> {
    match PointOutcome(p, parse)
    case Keep(o) => Some(o)
    case _ => None
  }

  /** The records of the points, in order: an independent statement of what
      the loop appends while no exception escapes. */
  function KeptRecords(points: seq<WbPoint>, parse: string -> Option<real>): seq<Observation> {
    Collect(points, p => Kept(p, parse))
  }

  /** When no point raises an uncaught exception, the loop appends exactly
      the kept records, in point order. */
  lemma {:induction false} ScanWithoutAbort(points: seq<WbPoint>, parse: string -> Option<real>)
    requires forall i :: 0 <= i < |points| ==> !PointOutcome(points[i], parse).Abort?
    ensures ScanPoints(points, parse) == Scan(KeptRecords(points, parse), false)
  {
    if points != [] {
      var init := points[..|points| - 1];
      forall i | 0 <= i < |init|
        ensures !PointOutcome(init[i], parse).Abort?
      {
        assert init[i] == points[i];
      }
      ScanWithoutAbort(init, parse);
    }
  }

  /** When point j is the first to raise an uncaught exception, the list
      holds exactly the kept records of the points before j, in append
      order, and the later points are lost. */
  lemma FirstAbort(points: seq<WbPoint>, parse: string -> Option<real>, j: nat)
    requires j < |points| && PointOutcome(points[j], parse).Abort?
    requires forall i :: 0 <= i < j ==> !PointOutcome(points[i], parse).Abort?
    ensures ScanPoints(points, parse) == Scan(KeptRecords(points[..j], parse), true)
  {
    var before := points[..j];
    var kept := KeptRecords(before, parse);
    assert ScanPoints(before, parse) == Scan(kept, false) by {
      ScanWithoutAbort(before, parse);
    }
    var upto := points[..j + 1];
    var out := PointOutcome(points[j], parse);
    assert upto[..j] == before && upto[j] == points[j];
    assert ScanPoints(upto, parse) == Step(ScanPoints(before, parse), out);
    assert Step(Scan(kept, false), out) == Scan(kept, true);
    AbortIsFinal(points, j + 1, parse);
  }

  /** A loop that runs to the end writes the kept records of all points,
      sorted by date. */
  lemma OutputFinished(raw: Option<seq<WbElement>>, parse: string -> Option<real>)
    requires HasPoints(raw)
    requires forall i :: 0 <= i < |raw.value[1].points| ==> !PointOutcome(raw.value[1].points[i], parse).Abort?
    ensures Output(raw, parse) == SortByDate(KeptRecords(raw.value[1].points, parse))
  {
    ScanWithoutAbort(raw.value[1].points, parse);
  }

  /** A loop cut short at point j writes the kept records of the points
      before j, unsorted. */
  lemma OutputAborted(raw: Option<seq<WbElement>>, parse: string -> Option<real>, j: nat)
    requires HasPoints(raw) && j < |raw.value[1].points|
    requires PointOutcome(raw.value[1].points[j], parse).Abort?
    requires forall i :: 0 <= i < j ==> !PointOutcome(raw.value[1].points[i], parse).Abort?
    ensures Output(raw, parse) == KeptRecords(raw.value[1].points[..j], parse)
  {
    FirstAbort(raw.value[1].points, parse, j);
  }

  /** Every written date is December 31 of a year datetime accepts. */
  lemma OutputDates(raw: Option<seq<WbElement>>, parse: string -> Option<real>)
    ensures forall o :: o in Output(raw, parse) ==> IsYearEnd(o.date)
  {
    if HasPoints(raw) {
      var points := raw.value[1].points;
      forall o | o in Output(raw, parse)
        ensures IsYearEnd(o.date)
      {
        assert o in multiset(Output(raw, parse));
        assert o in ScanPoints(points, parse).kept;
        ScanKeptFromPoints(points, parse, o);
        var i :| 0 <= i < |points| && PointOutcome(points[i], parse) == Keep(o);
      }
    }
  }

  /** A Brazilian point dated by a bare four-digit year is dated December 31
      of that year; the year 0000, which datetime rejects, skips the point. */
  lemma YearPoint(year: nat, v: real, parse: string -> Option<real>)
    requires year <= MaxYear
    ensures PointOutcome(WbPoint(Some(CountryCode), Some(Digits(year, 4)), JNumber(v)), parse)
         == if MinYear <= year then Keep(Observation(YearEnd(year), v)) else Skip
  {
    ParseIntOfDigits(Digits(year, 4));
    DigitsRoundTrip(year, 4);
  }

  /** A Brazilian point whose date is a year beyond a C int (such as
      "3000000000") makes datetime() raise OverflowError, which the inner
      handler does not catch: the loop ends there. */
  lemma OverflowYearAborts(year: nat, w: nat, v: real, parse: string -> Option<real>)
    requires 0 < w && year < Pow10(w) && CIntMax < year
    ensures PointOutcome(WbPoint(Some(CountryCode), Some(Digits(year, w)), JNumber(v)), parse) == Abort
  {
    ParseIntOfDigits(Digits(year, w));
    DigitsRoundTrip(year, w);
  }

  /** One more point is one more turn of the loop. */
  lemma ScanAppend(points: seq<WbPoint>, p: WbPoint, parse: string -> Option<real>)
    ensures ScanPoints(points + [p], parse) == Step(ScanPoints(points, parse), PointOutcome(p, parse))
  {
    assert (points + [p])[..|points|] == points;
  }

  /** YearEnd(year) is the four digits of the year followed by "-12-31". */
  lemma YearEndSpelled(year: int)
    requires MinYear <= year <= MaxYear
    ensures YearEnd(year) == Digits(year, 4) + "-12-31"
  {
    FormatIsoSpelled(Date(year, 12, 31));
    Digits2(12);
    Digits2(31);
    assert Digits(12, 2) == "12" && Digits(31, 2) == "31";
  }
}
