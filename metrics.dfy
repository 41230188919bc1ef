/** The two indicators of `calc_metrics.py`, computed on the daily table: the
    percentage variation of cases between the last two periods of
    `period_days` days, and the percentage of one column over another in the
    last `period_days` days. Both windows end at the latest notification
    date; the functions ending in `UpTo` take that day as a parameter.
    Percentages are exact fractions. */
module Metrics {
  import opened Wrappers
  import opened Calendar
  import opened Seqs
  import opened DailyTable
  import opened Aggregation

  /** The exact percentage `num / den` %, with `den > 0`. */
  datatype Ratio = Ratio(num: int, den: int)

  /** The float the variation returns: a percentage, `inf` when the previous
      period had no case and the current one had some, and `nan` when both
      periods had none (numpy's `x / 0`). */
  datatype Variation = Percent(rate: Ratio) | PlusInfinity | NotANumber

  /** Tables with the same rows: same length, same membership. */
  lemma SameRows(a: seq<DailyRow>, b: seq<DailyRow>)
    requires multiset(a) == multiset(b)
    ensures |a| == |b|
    ensures forall x :: x in a <==> x in b
  {
    assert |a| == |multiset(a)| == |multiset(b)| == |b|;
    forall x ensures x in a <==> x in b {
      assert x in a <==> x in multiset(a);
      assert x in b <==> x in multiset(b);
    }
  }

  // ---------------------------------------------------------------------
  // calc_case_var_rate_by_period
  // ---------------------------------------------------------------------

  /** `window_start_date`: the first of the last `2 * period` days up to
      day `last`. */
  function WindowStart(last: int, period: int): int {
    last - (2 * period - 1)
  }

  /** `df_prev_period` when the latest day is `last`: the rows since
      `window_start_date`, then those up to `period - 1` days after it. */
  function PreviousPeriodUpTo(daily: seq<DailyRow>, last: int, period: int): (r: seq<DailyRow>)
    ensures forall x :: x in r <==>
              x in daily && WindowStart(last, period) <= Day(x) <= WindowStart(last, period) + period - 1
  {
    var start := WindowStart(last, period);
    Filter(Since(daily, start), OnOrBefore(start + period - 1))
  }

  /** `df_curr_period` when the latest day is `last`: the rows since
      `window_start_date`, then those more than `period - 1` days after it. */
  function CurrentPeriodUpTo(daily: seq<DailyRow>, last: int, period: int): (r: seq<DailyRow>)
    ensures forall x :: x in r <==>
              x in daily && WindowStart(last, period) <= Day(x) && WindowStart(last, period) + period - 1 < Day(x)
  {
    var start := WindowStart(last, period);
    Filter(Since(daily, start), After(start + period - 1))
  }

  /** `(curr - prev) / prev * 100` under numpy's division. */
  function VariationOf(prev: nat, curr: nat): (v: Variation)
    ensures v.Percent? <==> prev > 0
    ensures v.PlusInfinity? <==> prev == 0 && curr > 0
    ensures v.Percent? ==> v.rate.den > 0
    ensures v.Percent? ==> (v.rate.num > 0 <==> curr > prev) && (v.rate.num == 0 <==> curr == prev)
    ensures v.Percent? ==> v.rate.num >= -100 * v.rate.den
  {
    if prev > 0 then Percent(Ratio(100 * (curr - prev), prev))
    else if curr > 0 then PlusInfinity
    else NotANumber
  }

  /** Growing the previous total by the returned percentage gives back the
      current total: the variation is exactly `(curr - prev) / prev * 100`. */
  lemma VariationRecoversCurrent(prev: nat, curr: nat)
    requires prev > 0
    ensures var r := VariationOf(prev, curr).rate;
            prev * (100 * r.den + r.num) == 100 * curr * r.den
  {
    var r := VariationOf(prev, curr).rate;
    assert r.num == 100 * (curr - prev) && r.den == prev;
    calc {
      prev * (100 * r.den + r.num);
      prev * (100 * prev + 100 * (curr - prev));
      prev * (100 * curr);
      100 * curr * prev;
    }
  }

  /** The variation when the latest day is `last`. */
  function CaseVariationUpTo(daily: seq<DailyRow>, last: int, period: int): Variation {
    VariationOf(Total(PreviousPeriodUpTo(daily, last, period), NuCasos),
                Total(CurrentPeriodUpTo(daily, last, period), NuCasos))
  }

  /** `calc_case_var_rate_by_period`, before rounding. On an empty table the
      latest date is NaT, every comparison with it is false, both periods are
      empty and `0 / 0` is `nan`. */
  function CaseVariation(daily: seq<DailyRow>, period: int): (v: Variation)
    ensures |daily| == 0 ==> v == NotANumber
  {
    if |daily| == 0 then VariationOf(Total([], NuCasos), Total([], NuCasos))
    else CaseVariationUpTo(daily, LastDay(daily), period)
  }

  /** The worked example: 70 cases, then 140, is a variation of +100%. */
  lemma DoublingIsHundredPercent()
    ensures VariationOf(70, 140).Percent?
    ensures VariationOf(70, 140).rate.num == 100 * VariationOf(70, 140).rate.den
  {
  }

  /** With `period_days <= 0` the window starts after the latest date, so
      both periods are empty and `0 / 0` gives `nan`. */
  lemma NonPositivePeriodIsNaN(daily: seq<DailyRow>, period: int)
    requires period <= 0
    ensures CaseVariation(daily, period) == NotANumber
  {
    if |daily| > 0 {
      var last := LastDay(daily);
      LastDayBound(daily);
      SinceNone(daily, WindowStart(last, period));
    }
  }

  /** The previous period's case sum is the sum over the day interval
      [L - 2p + 1, L - p], L being the latest day. */
  lemma PreviousPeriodByDays(daily: seq<DailyRow>, last: int, period: int)
    ensures Total(PreviousPeriodUpTo(daily, last, period), NuCasos)
            == DaySum(daily, NuCasos, last - 2 * period + 1, last - period)
  {
    var start := WindowStart(last, period);
    var mid := start + period - 1;
    calc {
      Total(PreviousPeriodUpTo(daily, last, period), NuCasos);
      Total(Filter(Since(daily, start), OnOrBefore(mid)), NuCasos);
      { SinceThenUntil(daily, start, mid); }
      Total(Filter(daily, Between(start, mid)), NuCasos);
      { TotalBetween(daily, NuCasos, start, mid); }
      DaySum(daily, NuCasos, start, mid);
      { assert start == last - 2 * period + 1 && mid == last - period; }
      DaySum(daily, NuCasos, last - 2 * period + 1, last - period);
    }
  }

  /** The current period holds the rows dated in [L - p + 1, L], when no
      row is dated after L. */
  lemma CurrentPeriodIsInterval(daily: seq<DailyRow>, last: int, period: int)
    requires forall x :: x in daily ==> Day(x) <= last
    requires period >= 0
    ensures CurrentPeriodUpTo(daily, last, period) == Filter(daily, Between(last - period + 1, last))
  {
    var start := WindowStart(last, period);
    var mid := start + period - 1;
    SinceThenAfter(daily, start, mid, last);
    assert mid + 1 == last - period + 1;
  }

  /** The current period's case sum is the sum over the day interval
      [L - p + 1, L], when no row is dated after L. */
  lemma CurrentPeriodByDays(daily: seq<DailyRow>, last: int, period: int)
    requires forall x :: x in daily ==> Day(x) <= last
    requires period >= 0
    ensures Total(CurrentPeriodUpTo(daily, last, period), NuCasos)
            == DaySum(daily, NuCasos, last - period + 1, last)
  {
    CurrentPeriodIsInterval(daily, last, period);
    TotalBetween(daily, NuCasos, last - period + 1, last);
  }

  /** The variation compares the case sums of the two adjacent day intervals
      [L - 2p + 1, L - p] and [L - p + 1, L]. */
  lemma CaseVariationByDays(daily: seq<DailyRow>, last: int, period: int)
    requires forall x :: x in daily ==> Day(x) <= last
    requires period >= 0
    ensures CaseVariationUpTo(daily, last, period) ==
              VariationOf(DaySum(daily, NuCasos, last - 2 * period + 1, last - period),
                          DaySum(daily, NuCasos, last - period + 1, last))
  {
    PreviousPeriodByDays(daily, last, period);
    CurrentPeriodByDays(daily, last, period);
  }

  /** `calc_case_variation` on a non-empty table: the variation from the
      case sum over days [L - 2p + 1, L - p] to the one over [L - p + 1, L],
      L the latest day of the table. */
  lemma CaseVariationOfTable(daily: seq<DailyRow>, last: int, period: int)
    requires |daily| > 0 && last == LastDay(daily)
    requires period >= 0
    ensures CaseVariation(daily, period) ==
              VariationOf(DaySum(daily, NuCasos, last - 2 * period + 1, last - period),
                          DaySum(daily, NuCasos, last - period + 1, last))
  {
    LastDayBound(daily);
    CaseVariationByDays(daily, last, period);
  }

  /** The two periods split the last `2 * period` days up to L without
      overlap: their case sums add up to the sum since `window_start_date`. */
  lemma PeriodsPartitionWindow(daily: seq<DailyRow>, last: int, period: int)
    requires forall x :: x in daily ==> Day(x) <= last
    requires period >= 0
    ensures Total(PreviousPeriodUpTo(daily, last, period), NuCasos) + Total(CurrentPeriodUpTo(daily, last, period), NuCasos)
            == Total(Since(daily, WindowStart(last, period)), NuCasos)
  {
    calc {
      Total(PreviousPeriodUpTo(daily, last, period), NuCasos) + Total(CurrentPeriodUpTo(daily, last, period), NuCasos);
      { PreviousPeriodByDays(daily, last, period);
        CurrentPeriodByDays(daily, last, period); }
      DaySum(daily, NuCasos, last - 2 * period + 1, last - period) + DaySum(daily, NuCasos, last - period + 1, last);
      { DaySumSplit(daily, NuCasos, last - 2 * period + 1, last - period, last); }
      DaySum(daily, NuCasos, last - 2 * period + 1, last);
      { WindowByDays(daily, last, period); }
      Total(Since(daily, WindowStart(last, period)), NuCasos);
    }
  }

  /** The case sum since `window_start_date` is the sum over the day interval
      [L - 2p + 1, L]. */
  lemma WindowByDays(daily: seq<DailyRow>, last: int, period: int)
    requires forall x :: x in daily ==> Day(x) <= last
    ensures Total(Since(daily, WindowStart(last, period)), NuCasos) == DaySum(daily, NuCasos, last - 2 * period + 1, last)
  {
    var start := WindowStart(last, period);
    calc {
      Total(Since(daily, start), NuCasos);
      { SinceUpToLast(daily, start, last); }
      Total(Filter(daily, Between(start, last)), NuCasos);
      { TotalBetween(daily, NuCasos, start, last); }
      DaySum(daily, NuCasos, start, last);
      { assert start == last - 2 * period + 1; }
      DaySum(daily, NuCasos, last - 2 * period + 1, last);
    }
  }

  /** The previous period's case sum depends on the rows, not on their order. */
  lemma PreviousTotalIgnoresOrder(a: seq<DailyRow>, b: seq<DailyRow>, last: int, period: int)
    requires multiset(a) == multiset(b)
    ensures Total(PreviousPeriodUpTo(a, last, period), NuCasos) == Total(PreviousPeriodUpTo(b, last, period), NuCasos)
  {
    calc {
      Total(PreviousPeriodUpTo(a, last, period), NuCasos);
      { PreviousPeriodByDays(a, last, period); }
      DaySum(a, NuCasos, last - 2 * period + 1, last - period);
      { DaySumPermutation(a, b, NuCasos, last - 2 * period + 1, last - period); }
      DaySum(b, NuCasos, last - 2 * period + 1, last - period);
      { PreviousPeriodByDays(b, last, period); }
      Total(PreviousPeriodUpTo(b, last, period), NuCasos);
    }
  }

  /** The current period's case sum depends on the rows, not on their order. */
  lemma CurrentTotalIgnoresOrder(a: seq<DailyRow>, b: seq<DailyRow>, last: int, period: int)
    requires multiset(a) == multiset(b)
    requires forall x :: x in a ==> Day(x) <= last
    requires period >= 0
    ensures Total(CurrentPeriodUpTo(a, last, period), NuCasos) == Total(CurrentPeriodUpTo(b, last, period), NuCasos)
  {
    calc {
      Total(CurrentPeriodUpTo(a, last, period), NuCasos);
      { CurrentPeriodByDays(a, last, period); }
      DaySum(a, NuCasos, last - period + 1, last);
      { DaySumPermutation(a, b, NuCasos, last - period + 1, last); }
      DaySum(b, NuCasos, last - period + 1, last);
      { BoundOfSameRows(a, b, last);
        CurrentPeriodByDays(b, last, period); }
      Total(CurrentPeriodUpTo(b, last, period), NuCasos);
    }
  }

  /** For a fixed latest day, the variation depends on the rows, not on their
      order. */
  lemma CaseVariationUpToIgnoresOrder(a: seq<DailyRow>, b: seq<DailyRow>, last: int, period: int)
    requires multiset(a) == multiset(b)
    requires forall x :: x in a ==> Day(x) <= last
    requires period >= 0
    ensures CaseVariationUpTo(a, last, period) == CaseVariationUpTo(b, last, period)
  {
    PreviousTotalIgnoresOrder(a, b, last, period);
    CurrentTotalIgnoresOrder(a, b, last, period);
  }

  lemma BoundOfSameRows(a: seq<DailyRow>, b: seq<DailyRow>, last: int)
    requires multiset(a) == multiset(b)
    requires forall x :: x in a ==> Day(x) <= last
    ensures forall x :: x in b ==> Day(x) <= last
  {
    SameRows(a, b);
  }

  /** The variation depends on the rows of the daily table, not on their order. */
  lemma CaseVariationIgnoresOrder(a: seq<DailyRow>, b: seq<DailyRow>, period: int)
    requires multiset(a) == multiset(b)
    requires period >= 0
    ensures CaseVariation(a, period) == CaseVariation(b, period)
  {
    SameRows(a, b);
    if |a| > 0 {
      SameLastDay(a, b);
      LastDayBound(a);
      CaseVariationUpToIgnoresOrder(a, b, LastDay(a), period);
    }
  }

  /** Rows dated before the window leave the previous period's case sum
      unchanged. */
  lemma PreviousTotalIgnoresOlderRows(older: seq<DailyRow>, daily: seq<DailyRow>, last: int, period: int)
    requires forall x :: x in older ==> Day(x) < WindowStart(last, period)
    ensures Total(PreviousPeriodUpTo(older + daily, last, period), NuCasos)
            == Total(PreviousPeriodUpTo(daily, last, period), NuCasos)
  {
    calc {
      Total(PreviousPeriodUpTo(older + daily, last, period), NuCasos);
      { PreviousPeriodByDays(older + daily, last, period); }
      DaySum(older + daily, NuCasos, last - 2 * period + 1, last - period);
      { assert WindowStart(last, period) == last - 2 * period + 1;
        DaySumIgnoresEarlier(older, daily, NuCasos, last - 2 * period + 1, last - period); }
      DaySum(daily, NuCasos, last - 2 * period + 1, last - period);
      { PreviousPeriodByDays(daily, last, period); }
      Total(PreviousPeriodUpTo(daily, last, period), NuCasos);
    }
  }

  /** Rows dated before the window leave the current period's case sum
      unchanged. */
  lemma CurrentTotalIgnoresOlderRows(older: seq<DailyRow>, daily: seq<DailyRow>, last: int, period: int)
    requires forall x :: x in daily ==> Day(x) <= last
    requires forall x :: x in older ==> Day(x) < WindowStart(last, period)
    requires period >= 1
    ensures Total(CurrentPeriodUpTo(older + daily, last, period), NuCasos)
            == Total(CurrentPeriodUpTo(daily, last, period), NuCasos)
  {
    calc {
      Total(CurrentPeriodUpTo(older + daily, last, period), NuCasos);
      { BoundOfAppend(older, daily, last);
        CurrentPeriodByDays(older + daily, last, period); }
      DaySum(older + daily, NuCasos, last - period + 1, last);
      { assert WindowStart(last, period) < last - period + 1;
        DaySumIgnoresEarlier(older, daily, NuCasos, last - period + 1, last); }
      DaySum(daily, NuCasos, last - period + 1, last);
      { CurrentPeriodByDays(daily, last, period); }
      Total(CurrentPeriodUpTo(daily, last, period), NuCasos);
    }
  }

  /** For a fixed latest day, rows dated before the window do not change the
      variation ("only the last 2 * period_days are considered"). */
  lemma CaseVariationUpToIgnoresOlderRows(older: seq<DailyRow>, daily: seq<DailyRow>, last: int, period: int)
    requires forall x :: x in daily ==> Day(x) <= last
    requires forall x :: x in older ==> Day(x) < WindowStart(last, period)
    requires period >= 1
    ensures CaseVariationUpTo(older + daily, last, period) == CaseVariationUpTo(daily, last, period)
  {
    PreviousTotalIgnoresOlderRows(older, daily, last, period);
    CurrentTotalIgnoresOlderRows(older, daily, last, period);
  }

  lemma BoundOfAppend(older: seq<DailyRow>, daily: seq<DailyRow>, last: int)
    requires forall x :: x in daily ==> Day(x) <= last
    requires forall x :: x in older ==> Day(x) <= last
    ensures forall x :: x in older + daily ==> Day(x) <= last
  {
    forall x | x in older + daily
      ensures Day(x) <= last
    {
      assert x in older || x in daily;
    }
  }

  /** Rows dated before the window do not change the variation. */
  lemma CaseVariationIgnoresOlderRows(older: seq<DailyRow>, daily: seq<DailyRow>, period: int)
    requires |daily| > 0
    requires period >= 1
    requires forall x :: x in older ==> Day(x) < WindowStart(LastDay(daily), period)
    ensures CaseVariation(older + daily, period) == CaseVariation(daily, period)
  {
    var last := LastDay(daily);
    LastDayBound(daily);
    LastDayIgnoresEarlier(older, daily, period);
    CaseVariationUpToIgnoresOlderRows(older, daily, last, period);
  }

  /** Prepending rows dated before the window keeps the latest day. */
  lemma LastDayIgnoresEarlier(older: seq<DailyRow>, daily: seq<DailyRow>, period: int)
    requires |daily| > 0
    requires period >= 1
    requires forall x :: x in older ==> Day(x) < WindowStart(LastDay(daily), period)
    ensures LastDay(older + daily) == LastDay(daily)
  {
    var last := LastDay(daily);
    var all := older + daily;
    LastDayBound(daily);
    LastDayBound(all);
    var i :| 0 <= i < |daily| && Day(daily[i]) == last;
    assert all[|older| + i] == daily[i];
    assert all[|older| + i] in all;
    var k :| 0 <= k < |all| && Day(all[k]) == LastDay(all);
    assert all[k] in older || all[k] in daily;
  }

  // ---------------------------------------------------------------------
  // calc_rate_by_period
  // ---------------------------------------------------------------------

  /** `df_period` when the latest day is `last`: the rows of the last
      `period` days. */
  function RateWindowUpTo(daily: seq<DailyRow>, last: int, period: int): (r: seq<DailyRow>)
    ensures forall x :: x in r <==> x in daily && last - Day(x) < period
  {
    Since(daily, last - (period - 1))
  }

  /** The rate when the latest day is `last`: `None` exactly when the
      denominator sums to zero over the window. */
  function CalcRateUpTo(daily: seq<DailyRow>, last: int, numerator: Column, denominator: Column, period: int): (r: Option<Ratio>)
    ensures r.None? <==> Total(RateWindowUpTo(daily, last, period), denominator) == 0
    ensures r.Some? ==> r.value.den > 0 && r.value.num >= 0
    ensures r.Some? && Total(RateWindowUpTo(daily, last, period), numerator) <= Total(RateWindowUpTo(daily, last, period), denominator)
            ==> r.value.num <= 100 * r.value.den
  {
    var window := RateWindowUpTo(daily, last, period);
    var num := Total(window, numerator);
    var den := Total(window, denominator);
    if den == 0 then None else Some(Ratio(100 * num, den))
  }

  /** `calc_rate_by_period`, before rounding. On an empty table the window is
      empty (the latest date is NaT), the denominator is zero and the result
      is `None`. */
  function CalcRate(daily: seq<DailyRow>, numerator: Column, denominator: Column, period: int): (r: Option<Ratio>)
    ensures |daily| == 0 ==> r.None?
  {
    if |daily| == 0 then None
    else CalcRateUpTo(daily, LastDay(daily), numerator, denominator, period)
  }

  /** The worked example: 5 deaths over 100 cases on the latest day is 5%. */
  lemma FiveDeathsInHundredCases(d: Date, period: int)
    requires period >= 1
    ensures var r := CalcRate([DailyRow(d, 100, Some(5), None, None)], NuObitos, NuCasos, period);
            r.Some? && r.value.num == 5 * r.value.den
  {
    var daily := [DailyRow(d, 100, Some(5), None, None)];
    var last := LastDay(daily);
    assert last == Day(daily[0]);
    CalcRateOfTable(daily, last, NuObitos, NuCasos, period);
    assert daily[..0] == [];
  }

  /** A window of `period <= 0` days ending at or after every row is empty. */
  lemma EmptyRateWindow(daily: seq<DailyRow>, last: int, numerator: Column, denominator: Column, period: int)
    requires forall x :: x in daily ==> Day(x) <= last
    requires period <= 0
    ensures CalcRateUpTo(daily, last, numerator, denominator, period).None?
  {
    SinceNone(daily, last - (period - 1));
  }

  /** With `period_days <= 0` the window starts after the latest date, so
      the denominator is zero and the rate is `None`. */
  lemma NonPositivePeriodRateIsNone(daily: seq<DailyRow>, numerator: Column, denominator: Column, period: int)
    requires period <= 0
    ensures CalcRate(daily, numerator, denominator, period).None?
  {
    if |daily| > 0 {
      LastDayBound(daily);
      EmptyRateWindow(daily, LastDay(daily), numerator, denominator, period);
    }
  }

  /** A column sum over the rate window is the sum over [L - p + 1, L]. */
  lemma RateWindowByDays(daily: seq<DailyRow>, last: int, c: Column, period: int)
    requires forall x :: x in daily ==> Day(x) <= last
    ensures Total(RateWindowUpTo(daily, last, period), c) == DaySum(daily, c, last - period + 1, last)
  {
    SinceByDays(daily, c, last, period);
  }

  /** The rate is the ratio of the two column sums over the day interval
      [L - p + 1, L]. */
  lemma CalcRateByDays(daily: seq<DailyRow>, last: int, numerator: Column, denominator: Column, period: int)
    requires forall x :: x in daily ==> Day(x) <= last
    ensures var num := DaySum(daily, numerator, last - period + 1, last);
            var den := DaySum(daily, denominator, last - period + 1, last);
            CalcRateUpTo(daily, last, numerator, denominator, period) == if den == 0 then None else Some(Ratio(100 * num, den))
  {
    RateWindowByDays(daily, last, numerator, period);
    RateWindowByDays(daily, last, denominator, period);
  }

  /** A column sum over the rate window depends on the rows, not on their
      order. */
  lemma RateTotalIgnoresOrder(a: seq<DailyRow>, b: seq<DailyRow>, last: int, c: Column, period: int)
    requires multiset(a) == multiset(b)
    requires forall x :: x in a ==> Day(x) <= last
    ensures Total(RateWindowUpTo(a, last, period), c) == Total(RateWindowUpTo(b, last, period), c)
  {
    calc {
      Total(RateWindowUpTo(a, last, period), c);
      { RateWindowByDays(a, last, c, period); }
      DaySum(a, c, last - period + 1, last);
      { DaySumPermutation(a, b, c, last - period + 1, last); }
      DaySum(b, c, last - period + 1, last);
      { BoundOfSameRows(a, b, last);
        RateWindowByDays(b, last, c, period); }
      Total(RateWindowUpTo(b, last, period), c);
    }
  }

  /** For a fixed latest day, the rate depends on the rows, not on their
      order. */
  lemma CalcRateUpToIgnoresOrder(a: seq<DailyRow>, b: seq<DailyRow>, last: int, numerator: Column, denominator: Column, period: int)
    requires multiset(a) == multiset(b)
    requires forall x :: x in a ==> Day(x) <= last
    ensures CalcRateUpTo(a, last, numerator, denominator, period) == CalcRateUpTo(b, last, numerator, denominator, period)
  {
    RateTotalIgnoresOrder(a, b, last, numerator, period);
    RateTotalIgnoresOrder(a, b, last, denominator, period);
  }

  /** `calc_rate_by_period` on a non-empty table: the ratio of the two column
      sums over the `p` days ending at the latest day, `None` when the
      denominator sum is zero. */
  lemma CalcRateOfTable(daily: seq<DailyRow>, last: int, numerator: Column, denominator: Column, period: int)
    requires |daily| > 0 && last == LastDay(daily)
    ensures var num := DaySum(daily, numerator, last - period + 1, last);
            var den := DaySum(daily, denominator, last - period + 1, last);
            CalcRate(daily, numerator, denominator, period) == if den == 0 then None else Some(Ratio(100 * num, den))
  {
    LastDayBound(daily);
    CalcRateByDays(daily, last, numerator, denominator, period);
  }

  /** The rate depends on the rows of the daily table, not on their order. */
  lemma CalcRateIgnoresOrder(a: seq<DailyRow>, b: seq<DailyRow>, numerator: Column, denominator: Column, period: int)
    requires multiset(a) == multiset(b)
    ensures CalcRate(a, numerator, denominator, period) == CalcRate(b, numerator, denominator, period)
  {
    SameRows(a, b);
    if |a| > 0 {
      SameLastDay(a, b);
      LastDayBound(a);
      CalcRateUpToIgnoresOrder(a, b, LastDay(a), numerator, denominator, period);
    }
  }

  /** On a daily table built from raw cases that all carry a notification
      id, the death, ICU and vaccination rates over cases are percentages
      between 0 and 100. */
  lemma DailyRatesArePercentages(srag: seq<CaseRecord>, numerator: Column, period: int)
    requires forall x :: x in srag ==> HasId(x)
    ensures var r := CalcRate(DailyInfo(srag), numerator, NuCasos, period);
            r.Some? ==> 0 <= r.value.num <= 100 * r.value.den
  {
    var daily := DailyInfo(srag);
    if |daily| > 0 {
      var window := RateWindowUpTo(daily, LastDay(daily), period);
      JoinedCountsAtMostCases(srag);
      forall x | x in window
        ensures Value(x, numerator) <= Value(x, NuCasos)
      {
        assert x in daily;
      }
      TotalMonotone(window, numerator, NuCasos);
    }
  }
}
