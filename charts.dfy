/** The data behind the two charts of `create_charts.py`: the trailing
    `daily_period`-day slice of the daily table, and the `NU_CASOS` sums of
    the trailing `monthly_period` calendar months, one month-end bin per
    month, with the labels and colours of the bars. Drawing is not modelled. */
module Charts {
  import opened Wrappers
  import opened Calendar
  import opened Seqs
  import opened DailyTable

  /** The default `monthly_period`: the last twelve months. */
  const DefaultMonthlyPeriod := 12

  const RoyalBlue := "royalblue"
  const Orange := "orange"

  /** Why the monthly chart is not produced: `iloc[-1]` on an empty resample
      raises `IndexError`, and a start month before the first representable
      month cannot be built. */
  datatype ChartError = EmptySeries | OutOfRange

  /** One row of `df_monthly`: the month-end label of a bin and its sum. */
  datatype MonthBucket = MonthBucket(monthEnd: Date, cases: nat)

  // ---------------------------------------------------------------------
  // Daily slice
  // ---------------------------------------------------------------------

  /** `df_last`: the rows of the last `period` days up to the latest date. On
      an empty table the latest date is NaT and nothing is selected. */
  function DailySlice(daily: seq<DailyRow>, period: int): (r: seq<DailyRow>)
    ensures |daily| == 0 ==> r == []
    ensures |daily| > 0 ==> forall x :: x in r <==> x in daily && LastDay(daily) - Day(x) < period
  {
    if |daily| == 0 then [] else Since(daily, LastDay(daily) - (period - 1))
  }

  /** The daily slice always shows the latest date, and only dates that are
      in the table: a missing day is not filled with zero. */
  lemma DailySliceKeepsLatest(daily: seq<DailyRow>, period: int)
    requires |daily| > 0
    requires period >= 1
    ensures exists x :: x in DailySlice(daily, period) && Day(x) == LastDay(daily)
    ensures |DailySlice(daily, period)| <= |daily|
  {
    var i :| 0 <= i < |daily| && Day(daily[i]) == LastDay(daily);
    assert daily[i] in daily;
    assert daily[i] in DailySlice(daily, period);
  }

  // ---------------------------------------------------------------------
  // Monthly slice
  // ---------------------------------------------------------------------

  /** `start_month = last_date - DateOffset(months=months)`. */
  function MonthlyStart(daily: seq<DailyRow>, months: int): (r: Option<Date>)
    requires |daily| > 0
    ensures r.Some? <==> months <= MonthIndex(LastDate(daily))
    ensures r.Some? ==> MonthIndex(r.value) + months == MonthIndex(LastDate(daily))
  {
    MonthsBefore(LastDate(daily), months)
  }

  /** `df_last_n_months`: the rows dated on or after `start_month`. */
  function MonthlySlice(daily: seq<DailyRow>, months: int): (r: Result<seq<DailyRow>, ChartError>)
    ensures |daily| == 0 ==> r == Success([])
    ensures r.Failure? <==> |daily| > 0 && months > MonthIndex(LastDate(daily))
    ensures r.Success? && |daily| > 0 ==>
              forall x :: x in r.value <==> x in daily && Ordinal(MonthlyStart(daily, months).value) <= Day(x)
  {
    if |daily| == 0 then Success([])
    else
      match MonthlyStart(daily, months)
      case None => Failure(OutOfRange)
      case Some(start) => Success(Since(daily, Ordinal(start)))
  }

  // ---------------------------------------------------------------------
  // Month-end resample
  // ---------------------------------------------------------------------

  /** The rows of month `k`. */
  function InMonth(k: nat): DailyRow -> bool {
    (x: DailyRow) => MonthIndex(x.date) == k
  }

  /** The `NU_CASOS` sum of the month-end bin of month `k`. */
  function MonthTotal(rows: seq<DailyRow>, k: nat): nat {
    Total(Filter(rows, InMonth(k)), NuCasos)
  }

  /** The bins of the months from `first` up to, not including, `stop`. */
  function Buckets(rows: seq<DailyRow>, first: nat, stop: nat): (bs: seq<MonthBucket>)
    requires first <= stop
    ensures |bs| == stop - first
    ensures forall i :: 0 <= i < |bs| ==> bs[i] == MonthBucket(MonthEnd(first + i), MonthTotal(rows, first + i))
    decreases stop - first
  {
    if first == stop then []
    else
      var rest := Buckets(rows, first + 1, stop);
      var bs := [MonthBucket(MonthEnd(first), MonthTotal(rows, first))] + rest;
      assert forall i :: 1 <= i < |bs| ==> bs[i] == rest[i - 1];
      bs
  }

  /** The months of the earliest and of the latest row. */
  function FirstMonth(rows: seq<DailyRow>): nat
    requires |rows| > 0
  {
    MonthIndex(MinDate(TableDates(rows)))
  }

  function LastMonth(rows: seq<DailyRow>): nat
    requires |rows| > 0
  {
    MonthIndex(MaxDate(TableDates(rows)))
  }

  /** Every row lies in a month between the first and the last month. */
  lemma MonthRange(rows: seq<DailyRow>)
    requires |rows| > 0
    ensures FirstMonth(rows) <= LastMonth(rows)
    ensures forall x :: x in rows ==> FirstMonth(rows) <= MonthIndex(x.date) <= LastMonth(rows)
  {
    var ds := TableDates(rows);
    var lo, hi := MinDate(ds), MaxDate(ds);
    OrdinalMonthOrder(lo, hi);
    forall x | x in rows
      ensures FirstMonth(rows) <= MonthIndex(x.date) <= LastMonth(rows)
    {
      var i :| 0 <= i < |rows| && rows[i] == x;
      assert ds[i] == x.date;
      OrdinalMonthOrder(lo, x.date);
      OrdinalMonthOrder(x.date, hi);
    }
  }

  /** `.resample("ME")["NU_CASOS"].sum()`: one bin per month from the month
      of the earliest row to the month of the latest, empty months included;
      no bin at all for an empty slice. */
  function Resample(rows: seq<DailyRow>): (bs: seq<MonthBucket>)
    ensures |bs| == 0 <==> |rows| == 0
    ensures |rows| > 0 ==> forall i :: 0 <= i < |bs| ==> bs[i].cases == MonthTotal(rows, FirstMonth(rows) + i)
  {
    if |rows| == 0 then []
    else
      MonthRange(rows);
      Buckets(rows, FirstMonth(rows), LastMonth(rows) + 1)
  }

  /** The cases of the bars. */
  function BucketTotal(bs: seq<MonthBucket>): nat {
    if |bs| == 0 then 0 else bs[0].cases + BucketTotal(bs[1..])
  }

  /** A bin sums the days of its calendar month. */
  lemma MonthTotalByDays(rows: seq<DailyRow>, k: nat)
    ensures MonthTotal(rows, k) == DaySum(rows, NuCasos, MonthStart(k), MonthStart(k + 1) - 1)
  {
    forall x | x in rows
      ensures InMonth(k)(x) <==> MonthStart(k) <= Day(x) <= MonthStart(k + 1) - 1
    {
      InMonthByOrdinal(x.date, k);
    }
    TotalOfDayWindow(rows, InMonth(k), NuCasos, MonthStart(k), MonthStart(k + 1) - 1);
  }

  /** A month without rows gets a bin of zero cases. */
  lemma EmptyMonthIsZero(rows: seq<DailyRow>, k: nat)
    requires forall x :: x in rows ==> MonthIndex(x.date) != k
    ensures MonthTotal(rows, k) == 0
  {
    FilterNone(rows, InMonth(k));
  }

  /** The days of months `first` up to `stop` are those of month `first`
      and those of the months after it. */
  lemma MonthsSplit(rows: seq<DailyRow>, first: nat, stop: nat)
    requires first < stop
    ensures DaySum(rows, NuCasos, MonthStart(first), MonthStart(first + 1) - 1)
              + DaySum(rows, NuCasos, MonthStart(first + 1), MonthStart(stop) - 1)
            == DaySum(rows, NuCasos, MonthStart(first), MonthStart(stop) - 1)
  {
    MonthStartMonotone(first, first + 1);
    MonthStartMonotone(first + 1, stop);
    DaySumSplitAt(rows, NuCasos, MonthStart(first), MonthStart(first + 1), MonthStart(stop) - 1);
  }

  /** Consecutive bins sum the days from the start of the first month to the
      end of the last one. */
  lemma {:induction false} BucketsByDays(rows: seq<DailyRow>, first: nat, stop: nat)
    requires first <= stop
    ensures BucketTotal(Buckets(rows, first, stop)) == DaySum(rows, NuCasos, MonthStart(first), MonthStart(stop) - 1)
    decreases stop - first
  {
    if first == stop {
      DaySumEmptyInterval(rows, NuCasos, MonthStart(first), MonthStart(first) - 1);
    } else {
      var bs := Buckets(rows, first, stop);
      var rest := Buckets(rows, first + 1, stop);
      assert bs[1..] == rest;
      calc {
        BucketTotal(bs);
        MonthTotal(rows, first) + BucketTotal(rest);
        { MonthTotalByDays(rows, first);
          BucketsByDays(rows, first + 1, stop); }
        DaySum(rows, NuCasos, MonthStart(first), MonthStart(first + 1) - 1) + DaySum(rows, NuCasos, MonthStart(first + 1), MonthStart(stop) - 1);
        { MonthsSplit(rows, first, stop); }
        DaySum(rows, NuCasos, MonthStart(first), MonthStart(stop) - 1);
      }
    }
  }

  /** Rows of the months from `first` up to `stop` are dated between the
      start of month `first` and the day before month `stop` starts. */
  lemma RowsWithinMonths(rows: seq<DailyRow>, first: nat, stop: nat)
    requires forall x :: x in rows ==> first <= MonthIndex(x.date) < stop
    ensures forall x :: x in rows ==> MonthStart(first) <= Day(x) <= MonthStart(stop) - 1
  {
    forall x | x in rows
      ensures MonthStart(first) <= Day(x) <= MonthStart(stop) - 1
    {
      OrdinalWithinMonths(x.date, first, stop);
    }
  }

  /** The bins of the months from `first` up to `stop` add up to the cases
      of rows that all lie in those months. */
  lemma BucketsKeepTotal(rows: seq<DailyRow>, first: nat, stop: nat)
    requires first <= stop
    requires forall x :: x in rows ==> first <= MonthIndex(x.date) < stop
    ensures BucketTotal(Buckets(rows, first, stop)) == Total(rows, NuCasos)
  {
    calc {
      BucketTotal(Buckets(rows, first, stop));
      { BucketsByDays(rows, first, stop); }
      DaySum(rows, NuCasos, MonthStart(first), MonthStart(stop) - 1);
      { RowsWithinMonths(rows, first, stop);
        DaySumAll(rows, NuCasos, MonthStart(first), MonthStart(stop) - 1); }
      Total(rows, NuCasos);
    }
  }

  /** The bars add up to the cases of the monthly slice: every row falls in
      exactly one bin. */
  lemma ResampleKeepsTotal(rows: seq<DailyRow>)
    ensures BucketTotal(Resample(rows)) == Total(rows, NuCasos)
  {
    if |rows| > 0 {
      MonthRange(rows);
      BucketsKeepTotal(rows, FirstMonth(rows), LastMonth(rows) + 1);
    }
  }

  lemma ResampleIsBuckets(rows: seq<DailyRow>)
    requires |rows| > 0
    ensures FirstMonth(rows) <= LastMonth(rows) + 1
    ensures Resample(rows) == Buckets(rows, FirstMonth(rows), LastMonth(rows) + 1)
  {
    MonthRange(rows);
  }

  /** The bin of month `last` closes the bins up to `last`. */
  lemma BucketsEndAt(rows: seq<DailyRow>, first: nat, last: nat)
    requires first <= last
    ensures |Buckets(rows, first, last + 1)| == last - first + 1
    ensures Buckets(rows, first, last + 1)[last - first].monthEnd == MonthEnd(last)
  {
    var bs := Buckets(rows, first, last + 1);
    assert bs[last - first].monthEnd == MonthEnd(first + (last - first));
  }

  /** The last bin is the month of the latest row. */
  lemma LastBucket(rows: seq<DailyRow>)
    requires |rows| > 0
    ensures Resample(rows)[|Resample(rows)| - 1].monthEnd == MonthEnd(LastMonth(rows))
  {
    ResampleIsBuckets(rows);
    BucketsEndAt(rows, FirstMonth(rows), LastMonth(rows));
  }

  /** The bins run over consecutive months, without gaps, from the month of
      the earliest row to the month of the latest. */
  lemma ResampleConsecutive(rows: seq<DailyRow>)
    requires |rows| > 0
    ensures var bs := Resample(rows);
            MonthIndex(bs[0].monthEnd) == FirstMonth(rows)
            && MonthIndex(bs[|bs| - 1].monthEnd) == LastMonth(rows)
            && forall i :: 0 <= i < |bs| ==> MonthIndex(bs[i].monthEnd) == MonthIndex(bs[0].monthEnd) + i
  {
    var first, last := FirstMonth(rows), LastMonth(rows);
    ResampleIsBuckets(rows);
    BucketsEndAt(rows, first, last);
    var bs := Buckets(rows, first, last + 1);
    assert |bs| - 1 == last - first;
  }

  // ---------------------------------------------------------------------
  // The partial last month
  // ---------------------------------------------------------------------

  /** `is_last_partial`: the last bin is in the month and year of
      `last_date`. */
  predicate IsLastPartial(bs: seq<MonthBucket>, lastDate: Date)
    requires |bs| > 0
  {
    bs[|bs| - 1].monthEnd.month == lastDate.month && bs[|bs| - 1].monthEnd.year == lastDate.year
  }

  /** Whenever the monthly slice is not empty it holds the rows of the
      latest date, so its last month is the month of `last_date`. */
  lemma MonthlySliceEndsOnLastDate(daily: seq<DailyRow>, months: int)
    requires MonthlySlice(daily, months).Success?
    requires |MonthlySlice(daily, months).value| > 0
    ensures |daily| > 0
    ensures LastMonth(MonthlySlice(daily, months).value) == MonthIndex(LastDate(daily))
  {
    var slice := MonthlySlice(daily, months).value;
    assert slice[0] in slice;
    var i :| 0 <= i < |daily| && daily[i].date == LastDate(daily);
    assert daily[i] in slice by {
      assert daily[i] in daily;
    }
    assert forall y :: y in slice ==> Day(y) <= Day(daily[i]) by {
      LastDayBound(daily);
    }
    LatestRowIsMax(slice, daily[i]);
  }

  /** A row no earlier than any other row carries the latest date. */
  lemma LatestRowIsMax(rows: seq<DailyRow>, x: DailyRow)
    requires x in rows
    requires forall y :: y in rows ==> Day(y) <= Day(x)
    ensures MaxDate(TableDates(rows)) == x.date
  {
    var ds := TableDates(rows);
    var m := MaxDate(ds);
    var k :| 0 <= k < |rows| && rows[k] == x;
    assert ds[k] == x.date;
    var j :| 0 <= j < |rows| && ds[j] == m;
    assert rows[j] in rows;
    OrdinalInjective(m, x.date);
  }

  /** A non-empty table and a `monthly_period` from 0 up to the month index
      of `last_date` give a non-empty monthly slice: `start_month` is in
      range and no later than `last_date`, so the rows of `last_date` are
      in the slice. */
  lemma SliceNonEmpty(daily: seq<DailyRow>, months: int)
    requires |daily| > 0
    requires 0 <= months <= MonthIndex(LastDate(daily))
    ensures MonthlySlice(daily, months).Success?
    ensures |MonthlySlice(daily, months).value| > 0
  {
    var last := LastDate(daily);
    MonthsBeforeIsEarlier(last, months);
    var i :| 0 <= i < |daily| && daily[i].date == last;
    assert daily[i] in daily;
    assert daily[i] in MonthlySlice(daily, months).value;
  }

  /** `is_last_partial` is true for every table and `monthly_period` for which
      the monthly chart is produced: it never checks whether `last_date` ends
      its month. */
  lemma LastMonthAlwaysPartial(daily: seq<DailyRow>, months: int)
    requires |daily| > 0
    requires 0 <= months <= MonthIndex(LastDate(daily))
    ensures MonthlySlice(daily, months).Success? && |MonthlySlice(daily, months).value| > 0
    ensures IsLastPartial(Resample(MonthlySlice(daily, months).value), LastDate(daily))
  {
    SliceNonEmpty(daily, months);
    LastBarPartial(daily, months);
  }

  /** Whenever the monthly slice has rows, its last bar is in the month and
      year of `last_date`. */
  lemma LastBarPartial(daily: seq<DailyRow>, months: int)
    requires MonthlySlice(daily, months).Success?
    requires |MonthlySlice(daily, months).value| > 0
    ensures |daily| > 0
    ensures IsLastPartial(Resample(MonthlySlice(daily, months).value), LastDate(daily))
  {
    var slice := MonthlySlice(daily, months).value;
    MonthlySliceEndsOnLastDate(daily, months);
    LastBucket(slice);
    MonthIndexRoundTrip(LastDate(daily));
  }

  /** The monthly chart has at most `months + 1` bars: its first bin is no
      earlier than the month of `start_month`. */
  lemma AtMostMonthsPlusOne(daily: seq<DailyRow>, months: int)
    requires months >= 0
    requires MonthlySlice(daily, months).Success?
    ensures |Resample(MonthlySlice(daily, months).value)| <= months + 1
  {
    var slice := MonthlySlice(daily, months).value;
    if |slice| > 0 {
      var start := MonthlyStart(daily, months).value;
      MonthlySliceEndsOnLastDate(daily, months);
      var ds := TableDates(slice);
      var lo := MinDate(ds);
      var i :| 0 <= i < |slice| && ds[i] == lo;
      assert slice[i] in slice;
      OrdinalMonthOrder(start, lo);
    }
  }

  // ---------------------------------------------------------------------
  // Labels and colours
  // ---------------------------------------------------------------------

  /** The decimal digit of `n`. */
  function Digit(n: nat): (c: char)
    requires n < 10
    ensures '0' <= c <= '9'
    ensures c as int - '0' as int == n
  {
    ('0' as int + n) as char
  }

  /** The two characters at position `k` are decimal digits. */
  predicate DigitsAt(s: string, k: nat)
    requires k + 1 < |s|
  {
    '0' <= s[k] <= '9' && '0' <= s[k + 1] <= '9'
  }

  /** The number the two-character decimal field at position `k` reads as. */
  function FieldAt(s: string, k: nat): int
    requires k + 1 < |s|
  {
    (s[k] as int - '0' as int) * 10 + (s[k + 1] as int - '0' as int)
  }

  /** A zero-padded two-digit field (`%m`, `%y`, `%d`): two digits that read
      back as `n`. */
  function TwoDigits(n: nat): (s: string)
    requires n < 100
    ensures |s| == 2
    ensures DigitsAt(s, 0) && FieldAt(s, 0) == n
  {
    [Digit(n / 10), Digit(n % 10)]
  }

  /** `strftime("%m/%y")`: the month, a slash and the year within its
      century. */
  function MonthLabel(d: Date): (s: string)
    ensures |s| == 5
    ensures DigitsAt(s, 0) && FieldAt(s, 0) == d.month
    ensures s[2] == '/'
    ensures DigitsAt(s, 3) && FieldAt(s, 3) == d.year % 100
  {
    TwoDigits(d.month) + "/" + TwoDigits(d.year % 100)
  }

  /** `" (until %d/%m)"` of `last_date`. */
  function UntilSuffix(d: Date): (s: string)
    ensures |s| == 14
    ensures s[..8] == " (until " && s[10] == '/' && s[13] == ')'
    ensures DigitsAt(s, 8) && FieldAt(s, 8) == d.day
    ensures DigitsAt(s, 11) && FieldAt(s, 11) == d.month
  {
    " (until " + TwoDigits(d.day) + "/" + TwoDigits(d.month) + ")"
  }

  /** Dates less than a year apart in month have different labels: `%m`
      tells their months apart, and `%y` the same month of two consecutive
      years. */
  lemma MonthLabelsDistinct(a: Date, b: Date)
    requires MonthIndex(a) < MonthIndex(b) <= MonthIndex(a) + 12
    ensures MonthLabel(a) != MonthLabel(b)
  {
    assert a.month == b.month ==> b.year == a.year + 1;
    assert b.year == a.year + 1 ==> a.year % 100 != b.year % 100;
  }

  /** The labels of at most 13 bins of consecutive months, the last one with
      a suffix, are pairwise distinct, so no two bars share a position. */
  lemma LabelsDistinct(bs: seq<MonthBucket>, labels: seq<string>, suffix: string)
    requires 0 < |bs| <= 13
    requires forall i :: 0 <= i < |bs| ==> MonthIndex(bs[i].monthEnd) == MonthIndex(bs[0].monthEnd) + i
    requires |labels| == |bs|
    requires forall i :: 0 <= i < |bs| - 1 ==> labels[i] == MonthLabel(bs[i].monthEnd)
    requires labels[|bs| - 1] == MonthLabel(bs[|bs| - 1].monthEnd) + suffix
    requires |suffix| > 0
    ensures NoDuplicates(labels)
  {
    var n := |bs|;
    forall i, j | 0 <= i < j < n
      ensures labels[i] != labels[j]
    {
      if j == n - 1 {
        assert |labels[i]| == 5 < |labels[j]|;
      } else {
        MonthLabelsDistinct(bs[i].monthEnd, bs[j].monthEnd);
      }
    }
  }

  /** The labels of the bins of a monthly slice of at most twelve months
      back, the last one with a suffix, are pairwise distinct. */
  lemma SliceLabelsDistinct(daily: seq<DailyRow>, months: int, bars: seq<MonthBucket>, labels: seq<string>, suffix: string)
    requires 0 <= months <= DefaultMonthlyPeriod
    requires MonthlySlice(daily, months).Success?
    requires bars == Resample(MonthlySlice(daily, months).value)
    requires |bars| > 0 && |labels| == |bars|
    requires forall i :: 0 <= i < |bars| - 1 ==> labels[i] == MonthLabel(bars[i].monthEnd)
    requires labels[|bars| - 1] == MonthLabel(bars[|bars| - 1].monthEnd) + suffix
    requires |suffix| > 0
    ensures NoDuplicates(labels)
  {
    var slice := MonthlySlice(daily, months).value;
    AtMostMonthsPlusOne(daily, months);
    ResampleConsecutive(slice);
    LabelsDistinct(bars, labels, suffix);
  }

  /** `df_monthly["month_label"]`, with the suffix appended to the last label
      when the last month is partial. */
  method MonthLabels(bs: seq<MonthBucket>, lastDate: Date, partial: bool) returns (labels: seq<string>)
    requires partial ==> |bs| > 0
    ensures |labels| == |bs|
    ensures forall i :: 0 <= i < |bs| - 1 ==> labels[i] == MonthLabel(bs[i].monthEnd)
    ensures |bs| > 0 && !partial ==> labels[|bs| - 1] == MonthLabel(bs[|bs| - 1].monthEnd)
    ensures partial ==> labels[|bs| - 1] == MonthLabel(bs[|bs| - 1].monthEnd) + UntilSuffix(lastDate)
  {
    labels := seq(|bs|, i requires 0 <= i < |bs| => MonthLabel(bs[i].monthEnd));
    if partial {
      labels := labels[|bs| - 1 := labels[|bs| - 1] + UntilSuffix(lastDate)];
    }
  }

  /** `colors`: every bar royal blue, then the last one orange when the last
      month is partial. */
  method BarColours(n: nat, partial: bool) returns (colours: seq<string>)
    requires partial ==> n > 0
    ensures |colours| == n
    ensures forall i :: 0 <= i < n ==> colours[i] == Orange || colours[i] == RoyalBlue
    ensures forall i :: 0 <= i < n ==> (colours[i] == Orange <==> partial && i == n - 1)
  {
    colours := seq(n, _ => RoyalBlue);
    if partial {
      colours := colours[n - 1 := Orange];
    }
  }

  // ---------------------------------------------------------------------
  // The chart data
  // ---------------------------------------------------------------------

  datatype MonthlyChart = MonthlyChart(bars: seq<MonthBucket>, labels: seq<string>, colours: seq<string>)

  datatype ChartData = ChartData(dailySeries: seq<DailyRow>, monthly: MonthlyChart)

  /** The data selection of `generate_and_store_plots`: the daily slice, the
      monthly bins, and the labels and colours of the bars. */
  method ChartSeries(daily: seq<DailyRow>, dailyPeriod: int, monthlyPeriod: int) returns (r: Result<ChartData, ChartError>)
    ensures r.Failure? <==>
              MonthlySlice(daily, monthlyPeriod).Failure? || |MonthlySlice(daily, monthlyPeriod).value| == 0
    ensures r.Success? ==>
              |daily| > 0
              && r.value.dailySeries == DailySlice(daily, dailyPeriod)
              && r.value.monthly.bars == Resample(MonthlySlice(daily, monthlyPeriod).value)
    ensures r.Success? ==>
              var m := r.value.monthly;
              var n := |m.bars|;
              n > 0 && |m.labels| == n && |m.colours| == n
              && (forall i :: 0 <= i < n - 1 ==> m.labels[i] == MonthLabel(m.bars[i].monthEnd) && m.colours[i] == RoyalBlue)
              && m.labels[n - 1] == MonthLabel(m.bars[n - 1].monthEnd) + UntilSuffix(LastDate(daily))
              && m.colours[n - 1] == Orange
    ensures r.Success? && 0 <= monthlyPeriod <= DefaultMonthlyPeriod ==> NoDuplicates(r.value.monthly.labels)
    ensures |daily| > 0 && 0 <= monthlyPeriod <= MonthIndex(LastDate(daily)) ==> r.Success?
  {
    if |daily| > 0 && 0 <= monthlyPeriod <= MonthIndex(LastDate(daily)) {
      SliceNonEmpty(daily, monthlyPeriod);
    }
    var dailySeries := DailySlice(daily, dailyPeriod);
    var slice := MonthlySlice(daily, monthlyPeriod);
    if slice.Failure? {
      return Failure(slice.error);
    }
    var bars := Resample(slice.value);
    if |bars| == 0 {
      return Failure(EmptySeries);
    }
    LastBarPartial(daily, monthlyPeriod);
    var partial := IsLastPartial(bars, LastDate(daily));
    assert partial;
    var labels := MonthLabels(bars, LastDate(daily), partial);
    var colours := BarColours(|bars|, partial);
    assert labels[|bars| - 1] == MonthLabel(bars[|bars| - 1].monthEnd) + UntilSuffix(LastDate(daily));
    assert colours[|bars| - 1] == Orange;
    if 0 <= monthlyPeriod <= DefaultMonthlyPeriod {
      SliceLabelsDistinct(daily, monthlyPeriod, bars, labels, UntilSuffix(LastDate(daily)));
    }
    return Success(ChartData(dailySeries, MonthlyChart(bars, labels, colours)));
  }

  /** With a negative `monthly_period` the start month lies after the latest
      date, so the monthly slice is empty and no chart is produced. */
  lemma NegativeMonthsEmptySlice(daily: seq<DailyRow>, months: int)
    requires months < 0
    requires MonthlySlice(daily, months).Success?
    ensures |MonthlySlice(daily, months).value| == 0
  {
    var slice := MonthlySlice(daily, months).value;
    if |slice| > 0 {
      var start := MonthlyStart(daily, months).value;
      assert slice[0] in slice;
      LastDayBound(daily);
      OrdinalMonthOrder(start, slice[0].date);
      OrdinalMonthOrder(slice[0].date, LastDate(daily));
      assert false;
    }
  }
}
