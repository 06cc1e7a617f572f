/**
  The two data helpers of the dashboard: get_period_groups, which splits the
  span of the available years into groups of a fixed size working back from
  the latest year, and filter_df_by_years, which keeps the rows of the
  selected years in date order.
 */
module Dashboard {
  import opened Options
  import opened Calendar
  import opened Sorting
  import opened PyConv
  import opened Sequences

  // ---------------------------------------------------------------------------
  // str(n) for an int

  /** The number of decimal digits of n. */
  function Width(n: nat): (w: nat)
    ensures 1 <= w && n < Pow10(w)
  {
    if n < 10 then 1 else 1 + Width(n / 10)
  }

  /** str(n): the digits of |n| without leading zeros, after a '-' when n is
      negative. */
  function DecimalString(n: int): string {
    if n < 0 then "-" + Digits(-n, Width(-n)) else Digits(n, Width(n))
  }

  /** int(str(n)) == n. */
  lemma DecimalStringRoundTrip(n: int)
    ensures ParseInt(DecimalString(n)) == Some(n)
  {
    var m: nat := if n < 0 then -n else n;
    DigitsRoundTrip(m, Width(m));
    if n < 0 {
      var s := DecimalString(n);
      assert s[1..] == Digits(m, Width(m));
      ParseIntOfNegative(s);
    } else {
      ParseIntOfDigits(Digits(m, Width(m)));
    }
  }

  // ---------------------------------------------------------------------------
  // get_period_groups

  /** A (label, list of years) pair of the result. */
  datatype Group = Group(caption: string, years: seq<int>)

  /** list(range(a, b + 1)). */
  function Range(a: int, b: int): (r: seq<int>)
    ensures |r| == if a <= b then b - a + 1 else 0
    ensures forall i :: 0 <= i < |r| ==> r[i] == a + i
  {
    if a <= b then seq(b - a + 1, i => a + i) else []
  }

  lemma RangeMembers(a: int, b: int, y: int)
    ensures y in Range(a, b) <==> a <= y <= b
  {
    if a <= y <= b {
      assert Range(a, b)[y - a] == y;
    }
  }

  function Max(a: int, b: int): int {
    if a < b then b else a
  }

  function SeqMin(s: seq<int>): (m: int)
    requires s != []
    ensures m in s && forall x :: x in s ==> m <= x
  {
    if |s| == 1 then s[0]
    else
      var m := SeqMin(s[1..]);
      assert forall x :: x in s[1..] ==> x in s;
      assert forall x :: x in s ==> x == s[0] || x in s[1..];
      if s[0] <= m then s[0] else m
  }

  function SeqMax(s: seq<int>): (m: int)
    requires s != []
    ensures m in s && forall x :: x in s ==> x <= m
  {
    if |s| == 1 then s[0]
    else
      var m := SeqMax(s[1..]);
      assert forall x :: x in s[1..] ==> x in s;
      assert forall x :: x in s ==> x == s[0] || x in s[1..];
      if m <= s[0] then s[0] else m
  }

  /** The first and last year of a group. */
  datatype Span = Span(first: int, last: int)

  /** The (label, years) pair of a span: "first-last" and first..last. */
  function GroupOf(sp: Span): Group {
    Group(DecimalString(sp.first) + "-" + DecimalString(sp.last), Range(sp.first, sp.last))
  }

  /** The span ending at `end`: it reaches back size years, but not past lo. */
  function SpanEnding(lo: int, end: int, size: int): Span {
    Span(Max(lo, end - (size - 1)), end)
  }

  /** The spans covering lo..hi, latest first: one ending at hi, then those
      covering lo..hi - size. */
  function Spans(lo: int, hi: int, size: int): seq<Span>
    requires size >= 1
    decreases hi - lo
  {
    if hi < lo then [] else [SpanEnding(lo, hi, size)] + Spans(lo, hi - size, size)
  }

  /** get_period_groups(years, group_size). */
  method GetPeriodGroups(years: seq<int>, size: int) returns (groups: seq<Group>)
    ensures years == [] || size < 1 ==> groups == []
    ensures years != [] && size >= 1 ==>
      var spans := Spans(SeqMin(years), SeqMax(years), size);
      && |groups| == |spans|
      && forall k :: 0 <= k < |groups| ==> groups[k] == GroupOf(spans[k])
  {
    if years == [] || size < 1 {
      return [];
    }
    var lo, hi := SeqMin(years), SeqMax(years);
    ghost var done: seq<Span> := [];
    groups := [];
    var current := hi;
    while current >= lo
      invariant done + Spans(lo, current, size) == Spans(lo, hi, size)
      invariant |groups| == |done| && forall k :: 0 <= k < |groups| ==> groups[k] == GroupOf(done[k])
      decreases current - lo
    {
      var start := Max(lo, current - (size - 1));
      var caption := DecimalString(start) + "-" + DecimalString(current);
      ghost var sp := SpanEnding(lo, current, size);
      var next := current - size;
      SpansStep(done, lo, current, next, size);
      groups, done := groups + [Group(caption, Range(start, current))], done + [sp];
      current := next;
    }
    assert done + [] == done;
  }

  /** One turn of the loop in GetPeriodGroups moves the span ending at
      `current` from the spans still to come to the spans done. */
  lemma SpansStep(done: seq<Span>, lo: int, current: int, next: int, size: int)
    requires size >= 1 && lo <= current && next == current - size
    ensures done + Spans(lo, current, size) == (done + [SpanEnding(lo, current, size)]) + Spans(lo, next, size)
  {
  }

  /** A group holds the years first..last, in order, and is labelled
      "first-last" of its own years. */
  lemma GroupOfSpan(sp: Span)
    requires sp.first <= sp.last
    ensures var g := GroupOf(sp);
      && |g.years| == sp.last - sp.first + 1
      && g.years[0] == sp.first && g.years[|g.years| - 1] == sp.last
      && (forall i :: 0 <= i < |g.years| ==> g.years[i] == g.years[0] + i)
      && g.caption == DecimalString(g.years[0]) + "-" + DecimalString(g.years[|g.years| - 1])
  {
  }

  /** Span k > 0 is span k - 1 of those covering lo..hi - size. */
  lemma SpansTail(lo: int, hi: int, size: int, k: nat)
    requires size >= 1 && 0 < k < |Spans(lo, hi, size)|
    ensures lo <= hi && |Spans(lo, hi, size)| == |Spans(lo, hi - size, size)| + 1
    ensures Spans(lo, hi, size)[k] == Spans(lo, hi - size, size)[k - 1]
  {
  }

  /** Each span lies within lo..hi and holds between 1 and size years. */
  lemma {:induction false} SpansShape(lo: int, hi: int, size: int, k: nat)
    requires size >= 1 && k < |Spans(lo, hi, size)|
    ensures var sp := Spans(lo, hi, size)[k];
      lo <= sp.first <= sp.last <= hi && sp.last - sp.first < size
    decreases k
  {
    if k > 0 {
      SpansTail(lo, hi, size, k);
      SpansShape(lo, hi - size, size, k - 1);
    }
  }

  /** The first span ends at the latest year and the last one starts at the
      earliest year. */
  lemma {:induction false} SpansEnds(lo: int, hi: int, size: int)
    requires lo <= hi && size >= 1
    ensures var sps := Spans(lo, hi, size);
      sps != [] && sps[0].last == hi && sps[|sps| - 1].first == lo
    decreases hi - lo
  {
    if lo <= hi - size {
      SpansEnds(lo, hi - size, size);
    }
  }

  /** The k-th span ends k * size years before the latest year. */
  lemma {:induction false} SpansEndAt(lo: int, hi: int, size: int, k: nat)
    requires size >= 1 && k < |Spans(lo, hi, size)|
    ensures Spans(lo, hi, size)[k].last == hi - k * size
    decreases k
  {
    if k > 0 {
      SpansTail(lo, hi, size, k);
      SpansEndAt(lo, hi - size, size, k - 1);
      assert k * size == (k - 1) * size + size;
    }
  }

  /** Consecutive spans end exactly size years apart and meet with neither a
      gap nor an overlap. */
  lemma {:induction false} SpansAdjacent(lo: int, hi: int, size: int, k: nat)
    requires size >= 1 && k + 1 < |Spans(lo, hi, size)|
    ensures var a, b := Spans(lo, hi, size)[k], Spans(lo, hi, size)[k + 1];
      b.last == a.last - size && b.last == a.first - 1
    decreases k
  {
    SpansTail(lo, hi, size, k + 1);
    if k > 0 {
      SpansTail(lo, hi, size, k);
      SpansAdjacent(lo, hi - size, size, k - 1);
    }
  }

  /** Every year of lo..hi lies in some span, and no other year does. */
  lemma {:induction false} SpansCover(lo: int, hi: int, size: int, y: int)
    requires size >= 1
    ensures lo <= y <= hi ==>
      exists k :: 0 <= k < |Spans(lo, hi, size)| && Spans(lo, hi, size)[k].first <= y <= Spans(lo, hi, size)[k].last
    ensures (exists k :: 0 <= k < |Spans(lo, hi, size)| && Spans(lo, hi, size)[k].first <= y <= Spans(lo, hi, size)[k].last)
      ==> lo <= y <= hi
    decreases hi - lo
  {
    if lo <= hi {
      var sps, rest := Spans(lo, hi, size), Spans(lo, hi - size, size);
      assert sps[0] == SpanEnding(lo, hi, size);
      SpansCover(lo, hi - size, size, y);
      if lo <= y <= hi {
        var w: nat := 0;
        if y <= hi - size {
          var k :| 0 <= k < |rest| && rest[k].first <= y <= rest[k].last;
          w := k + 1;
          assert sps[w] == rest[k];
        }
        assert 0 <= w < |sps| && sps[w].first <= y <= sps[w].last;
      }
      if k :| 0 <= k < |sps| && sps[k].first <= y <= sps[k].last {
        if k > 0 {
          assert rest[k - 1] == sps[k];
        }
      }
    }
  }

  /** No year lies in two spans. */
  lemma {:induction false} SpansDisjoint(lo: int, hi: int, size: int, j: nat, k: nat)
    requires size >= 1 && j < k < |Spans(lo, hi, size)|
    ensures Spans(lo, hi, size)[k].last < Spans(lo, hi, size)[j].first
    decreases k
  {
    SpansAdjacent(lo, hi, size, k - 1);
    if j < k - 1 {
      SpansDisjoint(lo, hi, size, j, k - 1);
      SpansShape(lo, hi, size, k - 1);
    }
  }

  /** get_period_groups as stated for the dashboard: every year of lo..hi is
      in exactly one group. */
  lemma GroupsPartition(lo: int, hi: int, size: int, y: int)
    requires size >= 1 && lo <= y <= hi
    ensures var sps := Spans(lo, hi, size);
      exists k :: 0 <= k < |sps| && y in GroupOf(sps[k]).years
        && forall j :: 0 <= j < |sps| && j != k ==> y !in GroupOf(sps[j]).years
  {
    var sps := Spans(lo, hi, size);
    SpansCover(lo, hi, size, y);
    var k :| 0 <= k < |sps| && sps[k].first <= y <= sps[k].last;
    RangeMembers(sps[k].first, sps[k].last, y);
    forall j | 0 <= j < |sps| && j != k
      ensures y !in GroupOf(sps[j]).years
    {
      RangeMembers(sps[j].first, sps[j].last, y);
      if j < k {
        SpansDisjoint(lo, hi, size, j, k);
      } else {
        SpansDisjoint(lo, hi, size, k, j);
      }
      SpansShape(lo, hi, size, j);
    }
  }

  // ---------------------------------------------------------------------------
  // filter_df_by_years

  /** A row of a dashboard frame: the parsed data_referencia, the ano column
      after pd.to_numeric(errors="coerce") (None where it gives NaN), and the
      value. */
  datatype FrameRow = FrameRow(date: Date, ano: Option<int>, valor: real)

  /** A frame: whether it has an ano column, and its rows. */
  datatype Frame = Frame(hasAno: bool, rows: seq<FrameRow>)

  function DateOf(r: FrameRow): Date {
    r.date
  }

  /** isin(years) on the coerced ano: NaN is in no list. */
  predicate InYears(r: FrameRow, years: seq<int>) {
    r.ano.Some? && r.ano.value in years
  }

  /** The boolean-mask selection df[df["ano"].isin(years)], in frame order. */
  function SelectYears(rows: seq<FrameRow>, years: seq<int>): seq<FrameRow> {
    Collect(rows, r => if InYears(r, years) then Some(r) else None)
  }

  lemma DateLeIsTotalOrder()
    ensures TotalOrder(DateLe)
  {
  }

  /** filter_df_by_years(df, years). sort_values uses an unstable sort, so
      rows with equal dates may come out in any order; the model fixes one
      such order and promises only what every order has in common. */
  function FilterByYears(f: Frame, years: seq<int>): (r: Frame)
    ensures f.rows == [] || !f.hasAno ==> r == f
    ensures f.rows != [] && f.hasAno ==>
      && r.hasAno
      && SortedBy(r.rows, DateOf, DateLe)
      && multiset(r.rows) == multiset(SelectYears(f.rows, years))
  {
    if f.rows == [] || !f.hasAno then f
    else
      var kept := SelectYears(f.rows, years);
      DateLeIsTotalOrder();
      SortBySorted(kept, DateOf, DateLe);
      SortByPermutes(kept, DateOf, DateLe);
      Frame(true, SortBy(kept, DateOf, DateLe))
  }

  /** A row is in the filtered frame exactly when it is a row of the frame
      whose year was selected, as often as it occurs there. */
  lemma FilterByYearsMembers(f: Frame, years: seq<int>, x: FrameRow)
    requires f.rows != [] && f.hasAno
    ensures x in FilterByYears(f, years).rows <==> x in f.rows && InYears(x, years)
  {
    var g := (r: FrameRow) => if InYears(r, years) then Some(r) else None;
    var kept := SelectYears(f.rows, years);
    assert x in FilterByYears(f, years).rows <==> x in multiset(kept);
    CollectMembers(f.rows, g, x);
  }
}
