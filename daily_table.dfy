/** The daily table (`df_daily_info`): one row per notification date with the
    case count and the three left-joined counts, and the column sums that the
    rates and charts take over date windows. */
module DailyTable {
  import opened Wrappers
  import opened Calendar
  import opened Seqs

  /** The columns of the daily table that hold counts. */
  datatype Column = NuCasos | NuObitos | NuUti | NuVacinados

  /** One row of `df_daily_info`. A joined count is `None` (NaN after the left
      merge) on a date that had no matching case. */
  datatype DailyRow = DailyRow(
    date: Date,               // DT_NOTIFIC
    cases: nat,               // NU_CASOS
    deaths: Option<nat>,      // NU_OBITOS
    icu: Option<nat>,         // NU_UTI
    vaccinated: Option<nat>)  // NU_VACINADOS

  function Cell(r: DailyRow, c: Column): Option<nat> {
    match c
    case NuCasos => Some(r.cases)
    case NuObitos => r.deaths
    case NuUti => r.icu
    case NuVacinados => r.vaccinated
  }

  /** What a cell adds to a column sum: pandas `sum` skips NaN. */
  function Value(r: DailyRow, c: Column): nat {
    Cell(r, c).GetOr(0)
  }

  function Day(r: DailyRow): nat {
    Ordinal(r.date)
  }

  function TableDates(rows: seq<DailyRow>): (ds: seq<Date>)
    ensures |ds| == |rows|
    ensures forall i :: 0 <= i < |rows| ==> ds[i] == rows[i].date
  {
    seq(|rows|, i requires 0 <= i < |rows| => rows[i].date)
  }

  /** `df_daily_info["DT_NOTIFIC"].max()` of a non-empty table. */
  function LastDate(rows: seq<DailyRow>): (d: Date)
    requires |rows| > 0
    ensures exists i :: 0 <= i < |rows| && rows[i].date == d
    ensures forall i :: 0 <= i < |rows| ==> Day(rows[i]) <= Ordinal(d)
  {
    var ds := TableDates(rows);
    var m := MaxDate(ds);
    assert exists i :: 0 <= i < |ds| && ds[i] == m;
    m
  }

  /** The day of `df_daily_info["DT_NOTIFIC"].max()`. */
  function LastDay(daily: seq<DailyRow>): (d: nat)
    requires |daily| > 0
    ensures exists i :: 0 <= i < |daily| && Day(daily[i]) == d
  {
    Ordinal(LastDate(daily))
  }

  /** No row is dated after the latest day. */
  lemma LastDayBound(daily: seq<DailyRow>)
    requires |daily| > 0
    ensures forall x :: x in daily ==> Day(x) <= LastDay(daily)
  {
    forall x | x in daily
      ensures Day(x) <= LastDay(daily)
    {
      var i :| 0 <= i < |daily| && daily[i] == x;
    }
  }

  /** Two tables with the same rows, in any order, end on the same day. */
  lemma SameLastDay(a: seq<DailyRow>, b: seq<DailyRow>)
    requires |a| > 0 && |b| > 0
    requires forall x :: x in a ==> x in b
    requires forall x :: x in b ==> x in a
    ensures LastDay(a) == LastDay(b)
  {
    LastDayBound(a);
    LastDayBound(b);
    var i :| 0 <= i < |a| && Day(a[i]) == LastDay(a);
    var j :| 0 <= j < |b| && Day(b[j]) == LastDay(b);
    assert a[i] in a && a[i] in b;
    assert b[j] in b && b[j] in a;
  }

  /** `df[col].sum()`. */
  function Total(rows: seq<DailyRow>, c: Column): nat {
    if |rows| == 0 then 0 else Total(rows[..|rows| - 1], c) + Value(rows[|rows| - 1], c)
  }

  /** The masks `df["DT_NOTIFIC"] >= day`, `<= day` and `> day`. */
  function OnOrAfter(day: int): DailyRow -> bool {
    (x: DailyRow) => Day(x) >= day
  }

  function OnOrBefore(day: int): DailyRow -> bool {
    (x: DailyRow) => Day(x) <= day
  }

  function After(day: int): DailyRow -> bool {
    (x: DailyRow) => Day(x) > day
  }

  /** The rows dated in the closed day interval [lo, hi]. */
  function Between(lo: int, hi: int): DailyRow -> bool {
    (x: DailyRow) => lo <= Day(x) <= hi
  }

  /** `df[df["DT_NOTIFIC"] >= start]`: the rows dated on or after day `start`. */
  function Since(rows: seq<DailyRow>, start: int): (r: seq<DailyRow>)
    ensures forall x :: x in r <==> x in rows && Day(x) >= start
  {
    Filter(rows, OnOrAfter(start))
  }

  /** A start after every row selects nothing. */
  lemma SinceNone(rows: seq<DailyRow>, start: int)
    requires forall x :: x in rows ==> Day(x) < start
    ensures Since(rows, start) == []
  {
    FilterNone(rows, OnOrAfter(start));
  }

  /** Reference definition: the sum of column `c` over the rows dated in the
      closed day interval [lo, hi]. */
  function DaySum(rows: seq<DailyRow>, c: Column, lo: int, hi: int): nat {
    if |rows| == 0 then 0
    else
      var last := rows[|rows| - 1];
      DaySum(rows[..|rows| - 1], c, lo, hi) + (if lo <= Day(last) <= hi then Value(last, c) else 0)
  }

  lemma TotalSnoc(rows: seq<DailyRow>, x: DailyRow, c: Column)
    ensures Total(rows + [x], c) == Total(rows, c) + Value(x, c)
  {
    assert (rows + [x])[..|rows|] == rows;
  }

  lemma {:induction false} TotalAppend(a: seq<DailyRow>, b: seq<DailyRow>, c: Column)
    ensures Total(a + b, c) == Total(a, c) + Total(b, c)
  {
    if |b| == 0 {
      assert a + b == a;
    } else {
      var b' := b[..|b| - 1];
      var x := b[|b| - 1];
      assert b == b' + [x];
      assert a + b == (a + b') + [x];
      TotalAppend(a, b', c);
      TotalSnoc(a + b', x, c);
      TotalSnoc(b', x, c);
    }
  }

  /** A column sum depends only on the multiset of rows, not on their order
      (`drop_duplicates` leaves the rows in first-appearance order). */
  lemma {:induction false} TotalPermutation(a: seq<DailyRow>, b: seq<DailyRow>, c: Column)
    requires multiset(a) == multiset(b)
    ensures Total(a, c) == Total(b, c)
  {
    if |a| > 0 {
      var a' := a[..|a| - 1];
      var x := a[|a| - 1];
      assert a == a' + [x];
      assert x in multiset(b);
      var k :| 0 <= k < |b| && b[k] == x;
      var b' := b[..k] + b[k + 1..];
      assert b == b[..k] + [x] + b[k + 1..];
      assert multiset(b) == multiset(b[..k]) + multiset{x} + multiset(b[k + 1..]);
      assert multiset(b') == multiset(b[..k]) + multiset(b[k + 1..]);
      assert multiset(a) == multiset(a') + multiset{x};
      assert multiset(a') == multiset(a) - multiset{x};
      assert multiset(b') == multiset(b) - multiset{x};
      TotalPermutation(a', b', c);
      TotalSnoc(a', x, c);
      TotalAppend(b[..k] + [x], b[k + 1..], c);
      TotalAppend(b[..k], b[k + 1..], c);
      TotalSnoc(b[..k], x, c);
    } else {
      assert |b| == |multiset(b)| == 0;
    }
  }

  /** Selecting rows with a mask that picks the closed day interval [lo, hi]
      and summing a column gives the reference `DaySum`. */
  lemma {:induction false} TotalOfDayWindow(rows: seq<DailyRow>, f: DailyRow -> bool, c: Column, lo: int, hi: int)
    requires forall x :: x in rows ==> (f(x) <==> lo <= Day(x) <= hi)
    ensures Total(Filter(rows, f), c) == DaySum(rows, c, lo, hi)
  {
    if |rows| > 0 {
      var rows' := rows[..|rows| - 1];
      var x := rows[|rows| - 1];
      assert rows == rows' + [x];
      assert x in rows;
      TotalOfDayWindow(rows', f, c, lo, hi);
      FilterSnoc(rows', x, f);
      if f(x) {
        TotalSnoc(Filter(rows', f), x, c);
      } else {
        assert Filter(rows, f) == Filter(rows', f);
      }
    }
  }

  /** Summing a column over the rows selected by `Between(lo, hi)`. */
  lemma TotalBetween(rows: seq<DailyRow>, c: Column, lo: int, hi: int)
    ensures Total(Filter(rows, Between(lo, hi)), c) == DaySum(rows, c, lo, hi)
  {
    TotalOfDayWindow(rows, Between(lo, hi), c, lo, hi);
  }

  /** `df[df >= lo]`, then `[df <= hi]`, selects the interval [lo, hi]. */
  lemma SinceThenUntil(rows: seq<DailyRow>, lo: int, hi: int)
    ensures Filter(Since(rows, lo), OnOrBefore(hi)) == Filter(rows, Between(lo, hi))
  {
    FilterFilter(rows, OnOrAfter(lo), OnOrBefore(hi), Between(lo, hi));
  }

  /** `df[df >= lo]`, then `[df > mid]`, selects [max(lo, mid + 1), last] when
      no row is dated after `last`. */
  lemma SinceThenAfter(rows: seq<DailyRow>, lo: int, mid: int, last: int)
    requires lo <= mid + 1
    requires forall x :: x in rows ==> Day(x) <= last
    ensures Filter(Since(rows, lo), After(mid)) == Filter(rows, Between(mid + 1, last))
  {
    FilterFilter(rows, OnOrAfter(lo), After(mid), Between(mid + 1, last));
  }

  /** `df[df >= lo]` selects [lo, last] when no row is dated after `last`. */
  lemma SinceUpToLast(rows: seq<DailyRow>, lo: int, last: int)
    requires forall x :: x in rows ==> Day(x) <= last
    ensures Since(rows, lo) == Filter(rows, Between(lo, last))
  {
    FilterSameMask(rows, OnOrAfter(lo), Between(lo, last));
  }

  /** A column summed over `df[df >= last - (period - 1)]` is the sum over
      the last `period` days [last - period + 1, last]. */
  lemma SinceByDays(rows: seq<DailyRow>, c: Column, last: int, period: int)
    requires forall x :: x in rows ==> Day(x) <= last
    ensures Total(Since(rows, last - (period - 1)), c) == DaySum(rows, c, last - period + 1, last)
  {
    var lo := last - (period - 1);
    calc {
      Total(Since(rows, lo), c);
      { SinceUpToLast(rows, lo, last); }
      Total(Filter(rows, Between(lo, last)), c);
      { TotalBetween(rows, c, lo, last); }
      DaySum(rows, c, lo, last);
      { assert lo == last - period + 1; }
      DaySum(rows, c, last - period + 1, last);
    }
  }

  /** Adjacent closed day intervals add up: [lo, mid] and [mid + 1, hi]
      partition [lo, hi]. */
  lemma {:induction false} DaySumSplit(rows: seq<DailyRow>, c: Column, lo: int, mid: int, hi: int)
    requires lo <= mid + 1 <= hi + 1
    ensures DaySum(rows, c, lo, mid) + DaySum(rows, c, mid + 1, hi) == DaySum(rows, c, lo, hi)
  {
    if |rows| > 0 {
      DaySumSplit(rows[..|rows| - 1], c, lo, mid, hi);
    }
  }

  /** The same split, at the first day `mid` of the second range. */
  lemma DaySumSplitAt(rows: seq<DailyRow>, c: Column, lo: int, mid: int, hi: int)
    requires lo <= mid <= hi + 1
    ensures DaySum(rows, c, lo, mid - 1) + DaySum(rows, c, mid, hi) == DaySum(rows, c, lo, hi)
  {
    DaySumSplit(rows, c, lo, mid - 1, hi);
    assert mid - 1 + 1 == mid;
  }

  lemma {:induction false} DaySumAppend(a: seq<DailyRow>, b: seq<DailyRow>, c: Column, lo: int, hi: int)
    ensures DaySum(a + b, c, lo, hi) == DaySum(a, c, lo, hi) + DaySum(b, c, lo, hi)
  {
    if |b| == 0 {
      assert a + b == a;
    } else {
      var b' := b[..|b| - 1];
      assert b == b' + [b[|b| - 1]];
      assert (a + b)[..|a + b| - 1] == a + b';
      DaySumAppend(a, b', c, lo, hi);
    }
  }

  /** Rows outside [lo, hi] contribute nothing. */
  lemma {:induction false} DaySumOutside(rows: seq<DailyRow>, c: Column, lo: int, hi: int)
    requires forall x :: x in rows ==> Day(x) < lo || Day(x) > hi
    ensures DaySum(rows, c, lo, hi) == 0
  {
    if |rows| > 0 {
      assert rows[|rows| - 1] in rows;
      DaySumOutside(rows[..|rows| - 1], c, lo, hi);
    }
  }

  /** An empty interval sums to zero. */
  lemma {:induction false} DaySumEmptyInterval(rows: seq<DailyRow>, c: Column, lo: int, hi: int)
    requires hi < lo
    ensures DaySum(rows, c, lo, hi) == 0
  {
    if |rows| > 0 {
      DaySumEmptyInterval(rows[..|rows| - 1], c, lo, hi);
    }
  }

  /** An interval that holds every row sums the whole column. */
  lemma {:induction false} DaySumAll(rows: seq<DailyRow>, c: Column, lo: int, hi: int)
    requires forall x :: x in rows ==> lo <= Day(x) <= hi
    ensures DaySum(rows, c, lo, hi) == Total(rows, c)
  {
    if |rows| > 0 {
      assert rows[|rows| - 1] in rows;
      DaySumAll(rows[..|rows| - 1], c, lo, hi);
    }
  }

  /** Prepending rows dated before the interval leaves its sum unchanged. */
  lemma DaySumIgnoresEarlier(older: seq<DailyRow>, rows: seq<DailyRow>, c: Column, lo: int, hi: int)
    requires forall x :: x in older ==> Day(x) < lo
    ensures DaySum(older + rows, c, lo, hi) == DaySum(rows, c, lo, hi)
  {
    DaySumAppend(older, rows, c, lo, hi);
    DaySumOutside(older, c, lo, hi);
  }

  /** A day-window sum depends only on the multiset of rows. */
  lemma {:induction false} DaySumPermutation(a: seq<DailyRow>, b: seq<DailyRow>, c: Column, lo: int, hi: int)
    requires multiset(a) == multiset(b)
    ensures DaySum(a, c, lo, hi) == DaySum(b, c, lo, hi)
  {
    var f := Between(lo, hi);
    TotalOfDayWindow(a, f, c, lo, hi);
    TotalOfDayWindow(b, f, c, lo, hi);
    FilterMultiset(a, f);
    FilterMultiset(b, f);
    assert multiset(Filter(a, f)) == multiset(Filter(b, f));
    TotalPermutation(Filter(a, f), Filter(b, f), c);
  }

  /** A column sum is bounded by another column's sum when every row is. */
  lemma {:induction false} TotalMonotone(rows: seq<DailyRow>, c: Column, d: Column)
    requires forall x :: x in rows ==> Value(x, c) <= Value(x, d)
    ensures Total(rows, c) <= Total(rows, d)
  {
    if |rows| > 0 {
      assert rows[|rows| - 1] in rows;
      TotalMonotone(rows[..|rows| - 1], c, d);
    }
  }
}
