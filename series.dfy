/**
  The normalised record both fetch scripts write, {"data_referencia": ...,
  "valor": ...}, and the sort they apply before writing it.
 */
module Series {
  import opened Calendar
  import opened Sorting

  datatype Observation = Observation(date: string, value: real)

  /** The sort key: x["data_referencia"]. */
  function DateKey(o: Observation): string {
    o.date
  }

  /** A date as strftime("%Y-%m-%d") writes it. */
  ghost predicate IsIsoDate(s: string) {
    exists d :: ValidDate(d) && FormatIso(d) == s
  }

  lemma LexLeIsTotalOrder()
    ensures TotalOrder(LexLe)
  {
    forall a: string { LexLeReflexive(a); }
    forall a: string, b: string | LexLe(a, b) && LexLe(b, a) ensures a == b { LexLeAntisymmetric(a, b); }
    forall a: string, b: string, c: string | LexLe(a, b) && LexLe(b, c) ensures LexLe(a, c) {
      LexLeTransitive(a, b, c);
    }
    forall a: string, b: string { LexLeTotal(a, b); }
  }

  /** list.sort(key=lambda x: x["data_referencia"]): ordered by the date
      string, a permutation of the input, and stable. */
  function SortByDate(s: seq<Observation>): (r: seq<Observation>)
    ensures SortedBy(r, DateKey, LexLe)
    ensures multiset(r) == multiset(s) && |r| == |s|
    ensures forall k :: WithKey(r, DateKey, k) == WithKey(s, DateKey, k)
  {
    LexLeIsTotalOrder();
    SortBySorted(s, DateKey, LexLe);
    SortByPermutes(s, DateKey, LexLe);
    SortByStableForAllKeys(s, DateKey, LexLe);
    SortBy(s, DateKey, LexLe)
  }

  /** Sorting is idempotent, and a list already in date order is left as
      it is. */
  lemma SortByDateOfSorted(s: seq<Observation>)
    ensures SortedBy(s, DateKey, LexLe) ==> SortByDate(s) == s
    ensures SortByDate(SortByDate(s)) == SortByDate(s)
  {
    if SortedBy(s, DateKey, LexLe) {
      SortByOfSorted(s, DateKey, LexLe);
    }
    SortByOfSorted(SortByDate(s), DateKey, LexLe);
  }

  /** Two records already in date order stay in that order. */
  lemma SortByDatePair(a: Observation, b: Observation)
    requires LexLe(a.date, b.date)
    ensures SortByDate([a, b]) == [a, b]
  {
    assert SortedBy([a, b], DateKey, LexLe);
    SortByDateOfSorted([a, b]);
  }

  /** Two records out of date order are swapped. */
  lemma SortByDatePairSwapped(a: Observation, b: Observation)
    requires !LexLe(a.date, b.date)
    ensures SortByDate([a, b]) == [b, a]
  {
    var r := SortByDate([a, b]);
    LexLeReflexive(a.date);
    assert a != b;
    assert r[0] in multiset([a, b]) && r[1] in multiset([a, b]);
    assert LexLe(DateKey(r[0]), DateKey(r[1]));
    if r[0] == a {
      assert false;
    }
    assert r[0] == b;
    assert multiset(r) == multiset{b, r[1]};
  }

  /** On dates written by strftime("%Y-%m-%d"), the string order of a sorted
      list is chronological order. */
  lemma SortedIsChronological(s: seq<Observation>, dates: seq<Date>)
    requires |dates| == |s|
    requires forall i :: 0 <= i < |s| ==> ValidDate(dates[i]) && s[i].date == FormatIso(dates[i])
    requires SortedBy(s, DateKey, LexLe)
    ensures forall i, j :: 0 <= i < j < |s| ==> DateLe(dates[i], dates[j])
  {
    forall i, j | 0 <= i < j < |s|
      ensures DateLe(dates[i], dates[j])
    {
      IsoOrderIsChronological(dates[i], dates[j]);
    }
  }
}
