/**
 The daily bars of the index after parsing, and their ascending sort by day
 (`sort_values(by='day')`).
 */
module BarOrder {
  import opened Calendar

  /** One parsed row of the index response. Only `day` and `close` are read
      downstream; the other columns are carried along unchanged. */
  datatype Bar = Bar(day: Date, open: real, high: real, low: real, close: real, volume: int)

  /** Rows in non-decreasing order of day. */
  predicate SortedByDay(bars: seq<Bar>) {
    forall i, j :: 0 <= i < j < |bars| ==> NotAfter(bars[i].day, bars[j].day)
  }

  /** A day identifies its row: the response holds one bar per day, so two
      rows on the same day are the same row. */
  predicate DayIdentifiesRow(bars: seq<Bar>) {
    forall i, j :: 0 <= i < |bars| && 0 <= j < |bars| && bars[i].day == bars[j].day ==> bars[i] == bars[j]
  }

  /** Every row of `s` falls no earlier than `d`. */
  predicate NoneBefore(d: Date, s: seq<Bar>) {
    forall j :: 0 <= j < |s| ==> NotAfter(d, s[j].day)
  }

  lemma {:induction false} SortedCons(h: Bar, s: seq<Bar>)
    requires NoneBefore(h.day, s) && SortedByDay(s)
    ensures SortedByDay([h] + s)
  {
    forall i, j | 0 <= i < j < |[h] + s|
      ensures NotAfter(([h] + s)[i].day, ([h] + s)[j].day)
    {
      if i == 0 {
        assert ([h] + s)[j] == s[j - 1];
      } else {
        assert ([h] + s)[i] == s[i - 1] && ([h] + s)[j] == s[j - 1];
      }
    }
  }

  /** The head of a sorted sequence bounds every row of a rearrangement of
      its tail to which one later row has been added. */
  lemma {:induction false} HeadBound(h: Bar, b: Bar, tail: seq<Bar>, rest: seq<Bar>)
    requires SortedByDay([h] + tail) && NotAfter(h.day, b.day)
    requires multiset(rest) == multiset(tail) + multiset{b}
    ensures NoneBefore(h.day, rest)
  {
    forall j | 0 <= j < |rest|
      ensures NotAfter(h.day, rest[j].day)
    {
      assert rest[j] in multiset(rest);
      if rest[j] != b {
        assert rest[j] in multiset(tail);
        var k :| 0 <= k < |tail| && tail[k] == rest[j];
        assert ([h] + tail)[0] == h && ([h] + tail)[k + 1] == tail[k];
        assert NotAfter(([h] + tail)[0].day, ([h] + tail)[k + 1].day);
      }
    }
  }

  /** Places `b` into an already sorted sequence, before the first row that
      does not come earlier than it. */
  function Insert(b: Bar, sorted: seq<Bar>): (r: seq<Bar>)
    requires SortedByDay(sorted)
    ensures SortedByDay(r)
    ensures multiset(r) == multiset(sorted) + multiset{b}
  {
    if |sorted| == 0 then [b]
    else if NotAfter(b.day, sorted[0].day) then
      assert NoneBefore(b.day, sorted);
      SortedCons(b, sorted);
      [b] + sorted
    else
      assert sorted == [sorted[0]] + sorted[1..];
      var rest := Insert(b, sorted[1..]);
      HeadBound(sorted[0], b, sorted[1..], rest);
      SortedCons(sorted[0], rest);
      [sorted[0]] + rest
  }

  /** The rows ordered by day. */
  function SortByDay(bars: seq<Bar>): (r: seq<Bar>)
    ensures SortedByDay(r)
    ensures multiset(r) == multiset(bars)
  {
    if |bars| == 0 then []
    else
      assert bars == [bars[0]] + bars[1..];
      Insert(bars[0], SortByDay(bars[1..]))
  }

  lemma {:induction false} DayIdentifiesRowPermutation(bars: seq<Bar>, r: seq<Bar>)
    requires DayIdentifiesRow(bars) && multiset(r) == multiset(bars)
    ensures DayIdentifiesRow(r)
  {
    forall i, j | 0 <= i < |r| && 0 <= j < |r| && r[i].day == r[j].day
      ensures r[i] == r[j]
    {
      assert r[i] in multiset(bars) && r[j] in multiset(bars);
      var p :| 0 <= p < |bars| && bars[p] == r[i];
      var q :| 0 <= q < |bars| && bars[q] == r[j];
    }
  }

  /** Two orderings by day of the same rows start with the same row. */
  lemma SortedHeadsAgree(a: seq<Bar>, b: seq<Bar>)
    requires |a| > 0 && SortedByDay(a) && SortedByDay(b) && multiset(a) == multiset(b)
    requires DayIdentifiesRow(a)
    ensures |b| > 0 && a[0] == b[0]
  {
    assert a[0] in multiset(b) && |b| == |multiset(b)| == |a|;
    assert b[0] in multiset(a);
    var k :| 0 <= k < |b| && b[k] == a[0];
    var m :| 0 <= m < |a| && a[m] == b[0];
    assert NotAfter(a[0].day, a[m].day);
    assert NotAfter(b[0].day, b[k].day);
    assert a[0].day == a[m].day;
  }

  lemma TailsPermuted(a: seq<Bar>, b: seq<Bar>)
    requires |a| > 0 && |b| > 0 && a[0] == b[0] && multiset(a) == multiset(b)
    ensures multiset(a[1..]) == multiset(b[1..])
  {
    assert a == [a[0]] + a[1..] && b == [b[0]] + b[1..];
    assert multiset(a[1..]) == multiset(a) - multiset{a[0]};
    assert multiset(b[1..]) == multiset(b) - multiset{b[0]};
  }

  /** When a day identifies its row, there is only one way to order the rows
      by day: the order of equal keys, which an unstable sort leaves open,
      cannot show. */
  lemma {:induction false} SortedPermutationUnique(a: seq<Bar>, b: seq<Bar>)
    requires SortedByDay(a) && SortedByDay(b) && multiset(a) == multiset(b)
    requires DayIdentifiesRow(a)
    ensures a == b
    decreases |a|
  {
    if |a| == 0 {
      assert |b| == |multiset(b)| == 0;
    } else {
      SortedHeadsAgree(a, b);
      TailsPermuted(a, b);
      assert SortedByDay(a[1..]) && SortedByDay(b[1..]);
      assert DayIdentifiesRow(a[1..]);
      SortedPermutationUnique(a[1..], b[1..]);
      assert a == [a[0]] + a[1..] && b == [b[0]] + b[1..];
    }
  }

  /** Any ordering by day of rows with one bar per day is the one `SortByDay`
      computes; in particular rows already in order are left as they are. */
  lemma SortByDayUnique(bars: seq<Bar>, r: seq<Bar>)
    requires DayIdentifiesRow(bars)
    requires SortedByDay(r) && multiset(r) == multiset(bars)
    ensures r == SortByDay(bars)
  {
    DayIdentifiesRowPermutation(bars, r);
    SortedPermutationUnique(r, SortByDay(bars));
  }

  /** Three days given out of order come back in calendar order. */
  lemma SortExample(x: real, y: real, z: real)
    ensures
      var first := Bar(Date(2020, 1, 5), x, x, x, x, 1);
      var second := Bar(Date(2020, 6, 15), y, y, y, y, 2);
      var third := Bar(Date(2021, 3, 1), z, z, z, z, 3);
      SortByDay([third, first, second]) == [first, second, third]
  {
    var first := Bar(Date(2020, 1, 5), x, x, x, x, 1);
    var second := Bar(Date(2020, 6, 15), y, y, y, y, 2);
    var third := Bar(Date(2021, 3, 1), z, z, z, z, 3);
    var bars := [third, first, second];
    assert multiset([first, second, third]) == multiset(bars);
    SortByDayUnique(bars, [first, second, third]);
  }
}
