/** The optional value used wherever the source returns None. */
module Options {
  datatype Option<T> = None | Some(value: T)
}

/**
  Calendar dates as Python's datetime.date holds them (proleptic Gregorian,
  years 1 to 9999), their zero-padded ISO 8601 extended form YYYY-MM-DD, and
  the code-point order in which Python compares strings.
 */
module Calendar {

  const MinYear: int := 1
  const MaxYear: int := 9999

  datatype Date = Date(year: int, month: int, day: int)

  /** The Gregorian leap-year rule. */
  predicate IsLeapYear(y: int) {
    y % 4 == 0 && (y % 100 != 0 || y % 400 == 0)
  }

  function DaysInMonth(y: int, m: int): (n: int)
    requires 1 <= m <= 12
    ensures 28 <= n <= 31
    ensures m == 2 ==> (n == 29 <==> IsLeapYear(y))
    ensures m != 2 ==> (n == 30 <==> m in {4, 6, 9, 11})
  {
    if m == 2 then (if IsLeapYear(y) then 29 else 28)
    else if m == 4 || m == 6 || m == 9 || m == 11 then 30
    else 31
  }

  /** A date that datetime.date accepts. */
  predicate ValidDate(d: Date) {
    && MinYear <= d.year <= MaxYear
    && 1 <= d.month <= 12
    && 1 <= d.day <= DaysInMonth(d.year, d.month)
  }

  /** Chronological order. */
  predicate DateLe(a: Date, b: Date) {
    || a.year < b.year
    || (a.year == b.year && (a.month < b.month || (a.month == b.month && a.day <= b.day)))
  }

  // ---------------------------------------------------------------------------
  // Decimal digits

  predicate IsDigit(c: char) {
    '0' <= c <= '9'
  }

  predicate AllDigits(s: string) {
    forall i :: 0 <= i < |s| ==> IsDigit(s[i])
  }

  function DigitChar(n: int): (c: char)
    requires 0 <= n <= 9
    ensures IsDigit(c) && c as int - '0' as int == n
  {
    ('0' as int + n) as char
  }

  function DigitValue(c: char): (n: int)
    requires IsDigit(c)
    ensures 0 <= n <= 9 && DigitChar(n) == c
  {
    c as int - '0' as int
  }

  function Pow10(w: nat): (p: nat)
    ensures p >= 1
  {
    if w == 0 then 1 else 10 * Pow10(w - 1)
  }

  /** The w lowest decimal digits of n, most significant first, zero-padded. */
  function Digits(n: nat, w: nat): (s: string)
    ensures |s| == w && AllDigits(s)
  {
    if w == 0 then [] else Digits(n / 10, w - 1) + [DigitChar(n % 10)]
  }

  /** The number an all-digit string spells in base 10. */
  function DigitsValue(s: string): nat
    requires AllDigits(s)
  {
    if s == [] then 0 else DigitsValue(s[..|s| - 1]) * 10 + DigitValue(s[|s| - 1])
  }

  /** The two digits of n, written out. */
  lemma Digits2(n: nat)
    ensures Digits(n, 2) == [DigitChar(n / 10 % 10), DigitChar(n % 10)]
  {
    assert Digits(n / 10, 1) == Digits(n / 10 / 10, 0) + [DigitChar(n / 10 % 10)];
  }

  /** The four digits of n, written out. */
  lemma Digits4(n: nat)
    ensures Digits(n, 4) == [DigitChar(n / 10 / 10 / 10 % 10), DigitChar(n / 10 / 10 % 10), DigitChar(n / 10 % 10), DigitChar(n % 10)]
  {
    Digits2(n / 10 / 10);
    assert Digits(n, 4) == Digits(n / 10, 3) + [DigitChar(n % 10)];
    assert Digits(n / 10, 3) == Digits(n / 10 / 10, 2) + [DigitChar(n / 10 % 10)];
  }

  lemma {:induction false} DigitsRoundTrip(n: nat, w: nat)
    requires n < Pow10(w)
    ensures DigitsValue(Digits(n, w)) == n
  {
    if w > 0 {
      DigitsRoundTrip(n / 10, w - 1);
      var s := Digits(n, w);
      assert s[..|s| - 1] == Digits(n / 10, w - 1);
    }
  }

  /** strftime("%Y-%m-%d") of a valid date: the year padded to four digits,
      month and day to two. */
  function FormatIso(d: Date): (s: string)
    requires ValidDate(d)
    ensures |s| == 10 && s[4] == '-' && s[7] == '-'
    ensures AllDigits(s[..4]) && AllDigits(s[5..7]) && AllDigits(s[8..])
    ensures DigitsValue(s[..4]) == d.year
    ensures DigitsValue(s[5..7]) == d.month
    ensures DigitsValue(s[8..]) == d.day
  {
    DigitsRoundTrip(d.year, 4);
    DigitsRoundTrip(d.month, 2);
    DigitsRoundTrip(d.day, 2);
    IsoFields(Digits(d.year, 4), Digits(d.month, 2), Digits(d.day, 2));
    Digits(d.year, 4) + ("-" + (Digits(d.month, 2) + ("-" + Digits(d.day, 2))))
  }

  /** Where the three fields sit in a YYYY-MM-DD string. */
  lemma IsoFields(y: string, m: string, dd: string)
    requires |y| == 4 && |m| == 2 && |dd| == 2
    ensures var s := y + ("-" + (m + ("-" + dd)));
      && |s| == 10 && s[4] == '-' && s[7] == '-'
      && s[..4] == y && s[5..7] == m && s[8..] == dd
  {
  }

  /** FormatIso(d) spelled out as its three fields and two hyphens. */
  lemma FormatIsoSpelled(d: Date)
    requires ValidDate(d)
    ensures FormatIso(d) == Digits(d.year, 4) + "-" + Digits(d.month, 2) + "-" + Digits(d.day, 2)
  {
  }

  /** The three zero-padded fields of FormatIso(d). */
  lemma FormatIsoFields(d: Date)
    requires ValidDate(d)
    ensures FormatIso(d)[..4] == Digits(d.year, 4)
    ensures FormatIso(d)[5..7] == Digits(d.month, 2)
    ensures FormatIso(d)[8..] == Digits(d.day, 2)
  {
  }

  // ---------------------------------------------------------------------------
  // String order: Python compares str values code point by code point, and a
  // proper prefix sorts first.

  predicate LexLe(a: string, b: string) {
    |a| == 0 || (|b| > 0 && (a[0] < b[0] || (a[0] == b[0] && LexLe(a[1..], b[1..]))))
  }

  lemma {:induction false} LexLeReflexive(a: string)
    ensures LexLe(a, a)
  {
    if |a| > 0 {
      LexLeReflexive(a[1..]);
    }
  }

  lemma {:induction false} LexLeAntisymmetric(a: string, b: string)
    requires LexLe(a, b) && LexLe(b, a)
    ensures a == b
  {
    if |a| > 0 && |b| > 0 {
      LexLeAntisymmetric(a[1..], b[1..]);
      assert a == [a[0]] + a[1..] && b == [b[0]] + b[1..];
    }
  }

  lemma {:induction false} LexLeTransitive(a: string, b: string, c: string)
    requires LexLe(a, b) && LexLe(b, c)
    ensures LexLe(a, c)
  {
    if |a| > 0 && |b| > 0 && |c| > 0 && a[0] == b[0] == c[0] {
      LexLeTransitive(a[1..], b[1..], c[1..]);
    }
  }

  lemma {:induction false} LexLeTotal(a: string, b: string)
    ensures LexLe(a, b) || LexLe(b, a)
  {
    if |a| > 0 && |b| > 0 && a[0] == b[0] {
      LexLeTotal(a[1..], b[1..]);
    }
  }

  /** Comparing two strings that start with prefixes of the same length: the
      prefixes decide unless they are equal. */
  lemma {:induction false} LexLeEqualLengthPrefix(p: string, q: string, s: string, t: string)
    requires |p| == |q|
    ensures LexLe(p + s, q + t) <==> (p != q && LexLe(p, q)) || (p == q && LexLe(s, t))
  {
    if |p| == 0 {
      assert p + s == s && q + t == t;
    } else {
      assert (p + s)[0] == p[0] && (q + t)[0] == q[0];
      assert (p + s)[1..] == p[1..] + s && (q + t)[1..] == q[1..] + t;
      LexLeEqualLengthPrefix(p[1..], q[1..], s, t);
      if p[0] == q[0] {
        assert p != q <==> p[1..] != q[1..] by {
          assert p == [p[0]] + p[1..] && q == [q[0]] + q[1..];
        }
      }
    }
  }

  /** Fixed-width zero-padded digit strings sort like the numbers they spell. */
  lemma {:induction false} DigitsOrder(a: nat, b: nat, w: nat)
    requires a < Pow10(w) && b < Pow10(w)
    ensures LexLe(Digits(a, w), Digits(b, w)) <==> a <= b
    ensures Digits(a, w) == Digits(b, w) <==> a == b
  {
    if w > 0 {
      DigitsOrder(a / 10, b / 10, w - 1);
      var ca, cb := DigitChar(a % 10), DigitChar(b % 10);
      LexLeEqualLengthPrefix(Digits(a / 10, w - 1), Digits(b / 10, w - 1), [ca], [cb]);
      assert LexLe([ca], [cb]) <==> ca <= cb by {
        assert [ca][1..] == [] && [cb][1..] == [];
      }
      var da, db := Digits(a, w), Digits(b, w);
      if da == db {
        assert da[..w - 1] == db[..w - 1] && da[w - 1] == db[w - 1];
      }
    }
  }

  /** The sort key YYYY-MM-DD orders valid dates chronologically. */
  lemma IsoOrderIsChronological(a: Date, b: Date)
    requires ValidDate(a) && ValidDate(b)
    ensures LexLe(FormatIso(a), FormatIso(b)) <==> DateLe(a, b)
    ensures FormatIso(a) == FormatIso(b) <==> a == b
  {
    DigitsOrder(a.year, b.year, 4);
    DigitsOrder(a.month, b.month, 2);
    DigitsOrder(a.day, b.day, 2);
    var ya, yb := Digits(a.year, 4), Digits(b.year, 4);
    var ma, mb := Digits(a.month, 2), Digits(b.month, 2);
    var da, db := Digits(a.day, 2), Digits(b.day, 2);
    var ta, tb := "-" + da, "-" + db;
    var ra, rb := "-" + (ma + ta), "-" + (mb + tb);
    LexLeEqualLengthPrefix(ya, yb, ra, rb);
    LexLeEqualLengthPrefix("-", "-", ma + ta, mb + tb);
    LexLeEqualLengthPrefix(ma, mb, ta, tb);
    LexLeEqualLengthPrefix("-", "-", da, db);
    assert FormatIso(a) == ya + ra && FormatIso(b) == yb + rb;
    IsoFormatInjective(a, b);
  }

  /** Distinct dates are written differently. */
  lemma IsoFormatInjective(a: Date, b: Date)
    requires ValidDate(a) && ValidDate(b)
    ensures FormatIso(a) == FormatIso(b) <==> a == b
  {
  }
}
