/**
  The conversions of Python's standard library that the pipeline relies on:
  int() on a string, float() on a decoded JSON value, and
  datetime.strptime for the two formats "%d/%m/%Y" and "%Y-%m-%d".
 */
module PyConv {
  import opened Options
  import opened Calendar

  // ---------------------------------------------------------------------------
  // int(s)

  /** The ASCII characters str.isspace accepts (tab to carriage return, the
      four information separators, space). */
  predicate IsSpace(c: char) {
    (9 <= c as int <= 13) || (28 <= c as int <= 32)
  }

  function TrimLeft(s: string): (t: string)
    ensures |t| <= |s|
  {
    if |s| > 0 && IsSpace(s[0]) then TrimLeft(s[1..]) else s
  }

  function TrimRight(s: string): (t: string)
    ensures |t| <= |s|
  {
    if |s| > 0 && IsSpace(s[|s| - 1]) then TrimRight(s[..|s| - 1]) else s
  }

  /** A base-10 integer literal body as int() accepts it: digits, with single
      underscores allowed between two digits. */
  predicate IsNumeral(s: string) {
    && |s| > 0
    && IsDigit(s[0])
    && IsDigit(s[|s| - 1])
    && (forall i :: 0 <= i < |s| ==> IsDigit(s[i]) || s[i] == '_')
    && (forall i :: 0 < i < |s| ==> UnderscoreAfterDigit(s, i))
  }

  /** An underscore at i follows a digit. */
  predicate UnderscoreAfterDigit(s: string, i: nat)
    requires 0 < i < |s|
  {
    s[i] == '_' ==> IsDigit(s[i - 1])
  }

  function RemoveUnderscores(s: string): string {
    if s == [] then [] else (if s[0] == '_' then [] else [s[0]]) + RemoveUnderscores(s[1..])
  }

  lemma {:induction false} RemoveUnderscoresDigits(s: string)
    requires forall i :: 0 <= i < |s| ==> IsDigit(s[i]) || s[i] == '_'
    ensures AllDigits(RemoveUnderscores(s))
  {
    if s != [] {
      RemoveUnderscoresDigits(s[1..]);
    }
  }

  function NumeralValue(s: string): nat
    requires IsNumeral(s)
  {
    RemoveUnderscoresDigits(s);
    DigitsValue(RemoveUnderscores(s))
  }

  /** The number a numeral spells; None for anything else. */
  function Numeral(s: string): Option<nat> {
    if IsNumeral(s) then Some(NumeralValue(s)) else None
  }

  /** str.strip() for the ASCII blanks. */
  function Strip(s: string): string {
    TrimRight(TrimLeft(s))
  }

  /** int(s) on a str: surrounding whitespace, an optional sign, then a
      numeral; None where Python raises ValueError. */
  function ParseInt(s: string): Option<int> {
    var t := Strip(s);
    if |t| > 0 && (t[0] == '+' || t[0] == '-') then
      match Numeral(t[1..])
      case None => None
      case Some(n) => Some(if t[0] == '-' then -(n as int) else n as int)
    else
      match Numeral(t)
      case None => None
      case Some(n) => Some(n as int)
  }

  lemma {:induction false} RemoveUnderscoresOfDigits(s: string)
    requires AllDigits(s)
    ensures RemoveUnderscores(s) == s
  {
    if s != [] {
      RemoveUnderscoresOfDigits(s[1..]);
      assert s == [s[0]] + s[1..];
    }
  }

  /** A string that starts and ends with a non-blank is left as is by
      strip(). */
  lemma TrimOfNonBlankEnds(s: string)
    requires |s| > 0 && !IsSpace(s[0]) && !IsSpace(s[|s| - 1])
    ensures Strip(s) == s
  {
    assert TrimLeft(s) == s;
  }

  /** A run of w digits spells a number below 10^w. */
  lemma {:induction false} DigitsValueBelow(s: string)
    requires AllDigits(s)
    ensures DigitsValue(s) < Pow10(|s|)
  {
    if s != [] {
      DigitsValueBelow(s[..|s| - 1]);
    }
  }

  lemma {:induction false} RemoveUnderscoresShorter(s: string)
    ensures |RemoveUnderscores(s)| <= |s|
  {
    if s != [] {
      RemoveUnderscoresShorter(s[1..]);
    }
  }

  /** int() of a text of at most four characters lies in -999..9999. */
  lemma ParseIntOfShort(s: string)
    requires |s| <= 4
    ensures ParseInt(s).Some? ==> -999 <= ParseInt(s).value <= 9999
  {
    var t := Strip(s);
    var body := if |t| > 0 && (t[0] == '+' || t[0] == '-') then t[1..] else t;
    if IsNumeral(body) {
      RemoveUnderscoresDigits(body);
      RemoveUnderscoresShorter(body);
      var ds := RemoveUnderscores(body);
      DigitsValueBelow(ds);
      assert Pow10(|ds|) <= Pow10(|body|) by { Pow10Monotone(|ds|, |body|); }
      if body == t {
        assert Pow10(|body|) <= 10000 by { Pow10Monotone(|body|, 4); }
      } else {
        assert Pow10(|body|) <= 1000 by { Pow10Monotone(|body|, 3); }
      }
    }
  }

  lemma {:induction false} Pow10Monotone(a: nat, b: nat)
    requires a <= b
    ensures Pow10(a) <= Pow10(b)
  {
    if a < b {
      Pow10Monotone(a, b - 1);
    }
  }

  /** A plain run of decimal digits is a numeral worth the number it spells. */
  lemma NumeralOfDigits(ds: string)
    requires |ds| > 0 && AllDigits(ds)
    ensures Numeral(ds) == Some(DigitsValue(ds))
  {
    RemoveUnderscoresOfDigits(ds);
  }

  /** int() reads a plain run of decimal digits as the number it spells. */
  lemma ParseIntOfDigits(s: string)
    requires |s| > 0 && AllDigits(s)
    ensures ParseInt(s) == Some(DigitsValue(s) as int)
  {
    TrimOfNonBlankEnds(s);
    NumeralOfDigits(s);
  }

  /** int() reads a '-' followed by decimal digits as the negated number. */
  lemma ParseIntOfNegative(s: string)
    requires |s| > 1 && s[0] == '-' && AllDigits(s[1..])
    ensures ParseInt(s) == Some(-(DigitsValue(s[1..]) as int))
  {
    assert s[|s| - 1] == s[1..][|s| - 2];
    TrimOfNonBlankEnds(s);
    NumeralOfDigits(s[1..]);
  }

  /** int() rejects the empty string and a string of blanks. */
  lemma {:induction false} ParseIntOfBlank(s: string)
    requires forall i :: 0 <= i < |s| ==> IsSpace(s[i])
    ensures ParseInt(s) == None
  {
    TrimLeftOfBlank(s);
  }

  lemma {:induction false} TrimLeftOfBlank(s: string)
    requires forall i :: 0 <= i < |s| ==> IsSpace(s[i])
    ensures TrimLeft(s) == []
  {
    if s != [] {
      TrimLeftOfBlank(s[1..]);
    }
  }

  // ---------------------------------------------------------------------------
  // float(v)

  /** A decoded JSON value, as far as float() can tell the kinds apart. A
      missing dictionary key and an explicit null both read as JNull, since
      dict.get returns None for either. */
  datatype Json = JNull | JBool(b: bool) | JNumber(n: real) | JString(s: string) | JArray | JObject

  datatype FloatResult = Float(value: real) | FloatValueError | FloatTypeError

  /** float(v). The text of a string is read by `parse`, which stands for
      Python's float literal grammar; None means ValueError. */
  function FloatOf(v: Json, parse: string -> Option<real>): (r: FloatResult)
    ensures r.FloatTypeError? <==> (v.JNull? || v.JArray? || v.JObject?)
    ensures r.FloatValueError? <==> (v.JString? && parse(v.s).None?)
    ensures v.JNumber? ==> r == Float(v.n)
  {
    match v
    case JNull => FloatTypeError
    case JBool(b) => Float(if b then 1.0 else 0.0)
    case JNumber(n) => Float(n)
    case JString(s) => (match parse(s) case Some(x) => Float(x) case None => FloatValueError)
    case JArray => FloatTypeError
    case JObject => FloatTypeError
  }

  // ---------------------------------------------------------------------------
  // datetime.strptime(s, fmt) for fmt in {"%d/%m/%Y", "%Y-%m-%d"}
  //
  // Python compiles the format to a regular expression whose directives are
  //   %d  3[01]|[12]\d|0[1-9]|[1-9]| [1-9]
  //   %m  1[0-2]|0[1-9]|[1-9]
  //   %Y  \d\d\d\d
  // matches it at the start of the string (alternatives tried in order, with
  // backtracking), raises ValueError when text is left over after the match,
  // and finally builds the date, which raises ValueError for a date that
  // does not exist.

  /** A directive matched at some position: its value and where it ends. */
  datatype Field = Field(value: int, next: nat)

  datatype Match = Match(year: int, month: int, day: int, end: nat)

  datatype DateFormat = DayMonthYear | YearMonthDay

  predicate IsNonZeroDigit(c: char) {
    '1' <= c <= '9'
  }

  predicate LitAt(s: string, i: nat, c: char) {
    i < |s| && s[i] == c
  }

  /** The alternatives of %d that match at i, in the order the regex tries them. */
  function DayFields(s: string, i: nat): (fs: seq<Field>)
    ensures forall f :: f in fs ==> (f.next == i + 1 || f.next == i + 2) && f.next <= |s|
  {
    (if i + 1 < |s| && s[i] == '3' && (s[i + 1] == '0' || s[i + 1] == '1')
     then [Field(30 + DigitValue(s[i + 1]), i + 2)] else [])
    + (if i + 1 < |s| && (s[i] == '1' || s[i] == '2') && IsDigit(s[i + 1])
       then [Field(10 * DigitValue(s[i]) + DigitValue(s[i + 1]), i + 2)] else [])
    + (if i + 1 < |s| && s[i] == '0' && IsNonZeroDigit(s[i + 1])
       then [Field(DigitValue(s[i + 1]), i + 2)] else [])
    + (if i < |s| && IsNonZeroDigit(s[i]) then [Field(DigitValue(s[i]), i + 1)] else [])
    + (if i + 1 < |s| && s[i] == ' ' && IsNonZeroDigit(s[i + 1])
       then [Field(DigitValue(s[i + 1]), i + 2)] else [])
  }

  /** The alternatives of %m that match at i, in the order the regex tries them. */
  function MonthFields(s: string, i: nat): (fs: seq<Field>)
    ensures forall f :: f in fs ==> (f.next == i + 1 || f.next == i + 2) && f.next <= |s|
  {
    (if i + 1 < |s| && s[i] == '1' && '0' <= s[i + 1] <= '2'
     then [Field(10 + DigitValue(s[i + 1]), i + 2)] else [])
    + (if i + 1 < |s| && s[i] == '0' && IsNonZeroDigit(s[i + 1])
       then [Field(DigitValue(s[i + 1]), i + 2)] else [])
    + (if i < |s| && IsNonZeroDigit(s[i]) then [Field(DigitValue(s[i]), i + 1)] else [])
  }

  /** %Y: exactly four digits. */
  function YearField(s: string, i: nat): (r: Option<Field>)
    ensures r.Some? ==> r.value.next == i + 4 <= |s|
  {
    if i + 4 <= |s| && AllDigits(s[i..i + 4]) then Some(Field(DigitsValue(s[i..i + 4]), i + 4))
    else None
  }

  /** "%Y-%m-%d": the year, then the first month alternative after which a
      "-" and some day alternative follow; the first day alternative wins,
      since nothing follows it in the pattern. */
  function MatchYearMonthDay(s: string): Option<Match> {
    match YearField(s, 0)
    case None => None
    case Some(y) => if LitAt(s, y.next, '-') then FirstMonthThenDay(s, y.value, MonthFields(s, y.next + 1)) else None
  }

  function FirstMonthThenDay(s: string, year: int, ms: seq<Field>): Option<Match> {
    if ms == [] then None
    else if LitAt(s, ms[0].next, '-') && |DayFields(s, ms[0].next + 1)| > 0 then
      var d := DayFields(s, ms[0].next + 1)[0];
      Some(Match(year, ms[0].value, d.value, d.next))
    else FirstMonthThenDay(s, year, ms[1..])
  }

  /** "%d/%m/%Y": backtracks over the day alternatives, and for each over the
      month alternatives, until "/" and four year digits follow. */
  function MatchDayMonthYear(s: string): Option<Match> {
    FirstDayThenMonth(s, DayFields(s, 0))
  }

  function FirstDayThenMonth(s: string, ds: seq<Field>): Option<Match> {
    if ds == [] then None
    else
      var r := if LitAt(s, ds[0].next, '/') then FirstMonthThenYear(s, ds[0].value, MonthFields(s, ds[0].next + 1)) else None;
      if r.Some? then r else FirstDayThenMonth(s, ds[1..])
  }

  function FirstMonthThenYear(s: string, day: int, ms: seq<Field>): Option<Match> {
    if ms == [] then None
    else if LitAt(s, ms[0].next, '/') && YearField(s, ms[0].next + 1).Some? then
      var y := YearField(s, ms[0].next + 1).value;
      Some(Match(y.value, ms[0].value, day, y.next))
    else FirstMonthThenYear(s, day, ms[1..])
  }

  /** datetime.strptime(s, fmt).date(); None where it raises ValueError. */
  function Strptime(s: string, fmt: DateFormat): (r: Option<Date>)
    ensures r.Some? ==> ValidDate(r.value)
  {
    var m := if fmt == DayMonthYear then MatchDayMonthYear(s) else MatchYearMonthDay(s);
    if m.None? || m.value.end != |s| then None
    else
      var d := Date(m.value.year, m.value.month, m.value.day);
      if ValidDate(d) then Some(d) else None
  }

  /** strftime("%d/%m/%Y") of day, month and year, each zero-padded. */
  function FormatDayMonthYear(day: nat, month: nat, year: nat): (s: string)
    requires day < 100 && month < 100 && year < 10000
    ensures |s| == 10 && s[2] == '/' && s[5] == '/'
  {
    Digits(day, 2) + "/" + Digits(month, 2) + "/" + Digits(year, 4)
  }

  lemma TwoDigits(n: nat)
    requires n < 100
    ensures Digits(n, 2) == [DigitChar(n / 10), DigitChar(n % 10)]
  {
  }

  /** A zero-padded month 01..12 at i: the first %m alternative that matches
      reads both digits. */
  lemma MonthFieldsOfPadded(s: string, i: nat, m: int)
    requires 1 <= m <= 12 && i + 2 <= |s| && s[i..i + 2] == Digits(m, 2)
    ensures |MonthFields(s, i)| > 0 && MonthFields(s, i)[0] == Field(m, i + 2)
  {
    TwoDigits(m);
    assert s[i] == s[i..i + 2][0] && s[i + 1] == s[i..i + 2][1];
  }

  /** A zero-padded day 01..31 at i: the first %d alternative that matches
      reads both digits. */
  lemma DayFieldsOfPadded(s: string, i: nat, d: int)
    requires 1 <= d <= 31 && i + 2 <= |s| && s[i..i + 2] == Digits(d, 2)
    ensures |DayFields(s, i)| > 0 && DayFields(s, i)[0] == Field(d, i + 2)
  {
    TwoDigits(d);
    assert s[i] == s[i..i + 2][0] && s[i + 1] == s[i..i + 2][1];
  }

  /** Two digits that are not a day 01..31 (00 or 32..99): every %d
      alternative that matches there reads one digit only. */
  lemma DayFieldsOfBadPadded(s: string, i: nat, d: nat)
    requires d < 100 && !(1 <= d <= 31) && i + 2 <= |s| && s[i..i + 2] == Digits(d, 2)
    ensures forall f :: f in DayFields(s, i) ==> f.next == i + 1
  {
    TwoDigits(d);
    assert s[i] == s[i..i + 2][0] && s[i + 1] == s[i..i + 2][1];
  }

  /** Two digits that are not a month 01..12 (00 or 13..99): every %m
      alternative that matches there reads one digit only. */
  lemma MonthFieldsOfBadPadded(s: string, i: nat, m: nat)
    requires m < 100 && !(1 <= m <= 12) && i + 2 <= |s| && s[i..i + 2] == Digits(m, 2)
    ensures forall f :: f in MonthFields(s, i) ==> f.next == i + 1
  {
    TwoDigits(m);
    assert s[i] == s[i..i + 2][0] && s[i + 1] == s[i..i + 2][1];
  }

  lemma {:induction false} FirstMonthThenYearFails(s: string, day: int, ms: seq<Field>)
    requires forall f :: f in ms ==> !LitAt(s, f.next, '/')
    ensures FirstMonthThenYear(s, day, ms) == None
  {
    if ms != [] {
      assert ms[0] in ms;
      FirstMonthThenYearFails(s, day, ms[1..]);
    }
  }

  lemma {:induction false} FirstDayThenMonthFails(s: string, ds: seq<Field>)
    requires forall f :: f in ds ==>
      !LitAt(s, f.next, '/') || FirstMonthThenYear(s, f.value, MonthFields(s, f.next + 1)).None?
    ensures FirstDayThenMonth(s, ds) == None
  {
    if ds != [] {
      assert ds[0] in ds;
      FirstDayThenMonthFails(s, ds[1..]);
    }
  }

  /** "%Y-%m-%d" reads back every date that strftime("%Y-%m-%d") writes. */
  lemma StrptimeIsoOfIso(d: Date)
    requires ValidDate(d)
    ensures Strptime(FormatIso(d), YearMonthDay) == Some(d)
  {
    var s := FormatIso(d);
    FormatIsoFields(d);
    assert s[0..4] == s[..4];
    assert s[8..10] == s[8..];
    assert YearField(s, 0) == Some(Field(d.year, 4));
    MonthFieldsOfPadded(s, 5, d.month);
    DayFieldsOfPadded(s, 8, d.day);
    assert MatchYearMonthDay(s) == Some(Match(d.year, d.month, d.day, 10));
  }

  /** "%d/%m/%Y" rejects the text strftime("%Y-%m-%d") writes: no day
      alternative is followed by "/". */
  lemma StrptimeDmyOfIso(d: Date)
    requires ValidDate(d)
    ensures Strptime(FormatIso(d), DayMonthYear) == None
  {
    var s := FormatIso(d);
    assert IsDigit(s[..4][1]) && IsDigit(s[..4][2]);
    FirstDayThenMonthFails(s, DayFields(s, 0));
  }

  /** "%d/%m/%Y" reads a zero-padded DD/MM/YYYY text exactly when it names a
      date that exists; "%Y-%m-%d" never matches it. */
  lemma StrptimeOfDayMonthYear(day: nat, month: nat, year: nat)
    requires 1 <= day <= 31 && 1 <= month <= 12 && year <= 9999
    ensures Strptime(FormatDayMonthYear(day, month, year), DayMonthYear)
         == if ValidDate(Date(year, month, day)) then Some(Date(year, month, day)) else None
    ensures Strptime(FormatDayMonthYear(day, month, year), YearMonthDay) == None
  {
    var s := FormatDayMonthYear(day, month, year);
    MatchOfDayMonthYear(day, month, year);
    assert !IsDigit(s[0..4][2]);
    assert YearField(s, 0) == None;
  }

  /** A zero-padded DD/MM/YYYY whose day is not 01..31 or whose month is not
      01..12 matches neither format: no alternative of the bad field is
      followed by "/". */
  lemma StrptimeOfBadDayMonthYear(day: nat, month: nat, year: nat)
    requires day < 100 && month < 100 && year <= 9999
    requires !(1 <= day <= 31 && 1 <= month <= 12)
    ensures Strptime(FormatDayMonthYear(day, month, year), DayMonthYear) == None
    ensures Strptime(FormatDayMonthYear(day, month, year), YearMonthDay) == None
  {
    var s := FormatDayMonthYear(day, month, year);
    assert s[0..2] == Digits(day, 2) && IsDigit(s[0..2][1]);
    assert s[3..5] == Digits(month, 2) && IsDigit(s[3..5][1]);
    if !(1 <= day <= 31) {
      DayFieldsOfBadPadded(s, 0, day);
    } else {
      MonthFieldsOfBadPadded(s, 3, month);
      FirstMonthThenYearFails(s, day, MonthFields(s, 3));
      forall f | f in DayFields(s, 0)
        ensures !LitAt(s, f.next, '/') || FirstMonthThenYear(s, f.value, MonthFields(s, f.next + 1)).None?
      {
        if f.next == 2 {
          FirstMonthThenYearFails(s, f.value, MonthFields(s, 3));
        }
      }
    }
    FirstDayThenMonthFails(s, DayFields(s, 0));
    assert !IsDigit(s[0..4][2]);
    assert YearField(s, 0) == None;
  }

  /** The "%d/%m/%Y" match of a zero-padded DD/MM/YYYY text reads all of it. */
  lemma MatchOfDayMonthYear(day: nat, month: nat, year: nat)
    requires 1 <= day <= 31 && 1 <= month <= 12 && year <= 9999
    ensures MatchDayMonthYear(FormatDayMonthYear(day, month, year)) == Some(Match(year, month, day, 10))
  {
    var s := FormatDayMonthYear(day, month, year);
    assert s[0..2] == Digits(day, 2);
    assert s[3..5] == Digits(month, 2);
    assert s[6..10] == Digits(year, 4);
    DigitsRoundTrip(year, 4);
    DayFieldsOfPadded(s, 0, day);
    MonthFieldsOfPadded(s, 3, month);
    assert YearField(s, 6) == Some(Field(year, 10));
    assert FirstMonthThenYear(s, day, MonthFields(s, 3)) == Some(Match(year, month, day, 10));
  }
}
