/** Calendar dates of the proleptic Gregorian calendar, as the notification
    dates (`DT_NOTIFIC`) are read by pandas, with the day arithmetic the
    pipeline uses: day ordinals for `Timedelta(days=k)` windows, month indices
    for monthly buckets and `DateOffset(months=n)`. */
module Calendar {
  import opened Wrappers

  datatype YearMonthDay = YearMonthDay(year: int, month: int, day: int)

  predicate IsLeapYear(y: int) {
    y % 4 == 0 && (y % 100 != 0 || y % 400 == 0)
  }

  function DaysInMonth(y: int, m: int): (n: int)
    requires 1 <= m <= 12
    ensures 28 <= n <= 31
  {
    if m == 2 then (if IsLeapYear(y) then 29 else 28)
    else if m == 4 || m == 6 || m == 9 || m == 11 then 30
    else 31
  }

  predicate IsValidDate(d: YearMonthDay) {
    d.year >= 1 && 1 <= d.month <= 12 && 1 <= d.day <= DaysInMonth(d.year, d.month)
  }

  /** A date from 0001-01-01 on. */
  type Date = d: YearMonthDay | IsValidDate(d) witness YearMonthDay(1, 1, 1)

  /** Months elapsed from January of year 1 to the month of `d`. */
  function MonthIndex(d: Date): nat {
    (d.year - 1) * 12 + d.month - 1
  }

  function YearOfMonth(k: nat): int { k / 12 + 1 }

  function MonthOfMonth(k: nat): int { k % 12 + 1 }

  /** Number of days in the month with index `k`. */
  function LengthOfMonth(k: nat): int {
    DaysInMonth(YearOfMonth(k), MonthOfMonth(k))
  }

  /** Days from 0001-01-01 to the first day of the month with index `k`. */
  function MonthStart(k: nat): nat {
    if k == 0 then 0 else MonthStart(k - 1) + LengthOfMonth(k - 1)
  }

  /** Days elapsed since 0001-01-01: one day is one unit, so `d - Timedelta(days=k)`
      is the date whose ordinal is `Ordinal(d) - k`. */
  function Ordinal(d: Date): nat {
    MonthStart(MonthIndex(d)) + d.day - 1
  }

  /** The date is in the month with index `k`, so `MonthIndex` and the two
      month functions describe the same month. */
  lemma MonthIndexRoundTrip(d: Date)
    ensures YearOfMonth(MonthIndex(d)) == d.year && MonthOfMonth(MonthIndex(d)) == d.month
    ensures LengthOfMonth(MonthIndex(d)) == DaysInMonth(d.year, d.month)
  {
  }

  /** A later month starts after every day of an earlier month. */
  lemma {:induction false} MonthStartGrows(j: nat, k: nat)
    requires j < k
    ensures MonthStart(j) + LengthOfMonth(j) <= MonthStart(k)
  {
    if j < k - 1 {
      MonthStartGrows(j, k - 1);
    }
  }

  /** The ordinals of a month's days are exactly the integers from the
      month's start to its last day. */
  lemma OrdinalInMonth(d: Date)
    ensures MonthStart(MonthIndex(d)) <= Ordinal(d) < MonthStart(MonthIndex(d)) + LengthOfMonth(MonthIndex(d))
  {
    MonthIndexRoundTrip(d);
  }

  /** Month starts never decrease. */
  lemma MonthStartMonotone(j: nat, k: nat)
    requires j <= k
    ensures MonthStart(j) <= MonthStart(k)
  {
    if j < k {
      MonthStartGrows(j, k);
    }
  }

  /** A date is in month `k` exactly when its ordinal lies between the start
      of month `k` and the start of month `k + 1`. */
  lemma InMonthByOrdinal(d: Date, k: nat)
    ensures MonthIndex(d) == k <==> MonthStart(k) <= Ordinal(d) < MonthStart(k + 1)
  {
    OrdinalInMonth(d);
    if MonthIndex(d) < k {
      MonthStartGrows(MonthIndex(d), k);
    } else if MonthIndex(d) > k {
      MonthStartGrows(k, MonthIndex(d));
    }
  }

  /** A date of one of the months from `first` up to `stop` lies between
      the first day of month `first` and the first day of month `stop`. */
  lemma OrdinalWithinMonths(d: Date, first: nat, stop: nat)
    requires first <= MonthIndex(d) < stop
    ensures MonthStart(first) <= Ordinal(d) < MonthStart(stop)
  {
    var k := MonthIndex(d);
    InMonthByOrdinal(d, k);
    MonthStartMonotone(first, k);
    MonthStartMonotone(k + 1, stop);
  }

  /** Day order refines month order. */
  lemma OrdinalMonthOrder(a: Date, b: Date)
    requires Ordinal(a) <= Ordinal(b)
    ensures MonthIndex(a) <= MonthIndex(b)
  {
    if MonthIndex(b) < MonthIndex(a) {
      MonthStartGrows(MonthIndex(b), MonthIndex(a));
      OrdinalInMonth(b);
      assert false;
    }
  }

  /** Ordinals identify dates: two dates with the same ordinal are the same date. */
  lemma OrdinalInjective(a: Date, b: Date)
    requires Ordinal(a) == Ordinal(b)
    ensures a == b
  {
    OrdinalMonthOrder(a, b);
    OrdinalMonthOrder(b, a);
    MonthIndexRoundTrip(a);
    MonthIndexRoundTrip(b);
  }

  /** Calendar (year, month, day) order. */
  predicate Before(a: Date, b: Date) {
    a.year < b.year
    || (a.year == b.year && a.month < b.month)
    || (a.year == b.year && a.month == b.month && a.day < b.day)
  }

  /** Ordinal order is calendar order, so comparing `Timestamp`s and comparing
      ordinals select the same rows. */
  lemma OrdinalOrderIsCalendarOrder(a: Date, b: Date)
    ensures Ordinal(a) < Ordinal(b) <==> Before(a, b)
  {
    MonthIndexRoundTrip(a);
    MonthIndexRoundTrip(b);
    OrdinalInMonth(a);
    OrdinalInMonth(b);
    if MonthIndex(a) < MonthIndex(b) {
      MonthStartGrows(MonthIndex(a), MonthIndex(b));
    } else if MonthIndex(b) < MonthIndex(a) {
      MonthStartGrows(MonthIndex(b), MonthIndex(a));
    }
  }

  /** The latest date of a non-empty list (`Series.max()`). */
  function MaxDate(ds: seq<Date>): (m: Date)
    requires |ds| > 0
    ensures m in ds
    ensures forall i :: 0 <= i < |ds| ==> Ordinal(ds[i]) <= Ordinal(m)
  {
    if |ds| == 1 then ds[0]
    else
      var rest := MaxDate(ds[..|ds| - 1]);
      if Ordinal(ds[|ds| - 1]) > Ordinal(rest) then ds[|ds| - 1] else rest
  }

  /** The earliest date of a non-empty list (`Series.min()`). */
  function MinDate(ds: seq<Date>): (m: Date)
    requires |ds| > 0
    ensures m in ds
    ensures forall i :: 0 <= i < |ds| ==> Ordinal(m) <= Ordinal(ds[i])
  {
    if |ds| == 1 then ds[0]
    else
      var rest := MinDate(ds[..|ds| - 1]);
      if Ordinal(ds[|ds| - 1]) < Ordinal(rest) then ds[|ds| - 1] else rest
  }

  /** The last day of the month with index `k` (the label of a month-end bin). */
  function MonthEnd(k: nat): (d: Date)
    ensures MonthIndex(d) == k
    ensures d.day == LengthOfMonth(k)
  {
    YearMonthDay(YearOfMonth(k), MonthOfMonth(k), LengthOfMonth(k))
  }

  function Min(a: int, b: int): int { if a <= b then a else b }

  /** `d - DateOffset(months=n)`: the same day `n` months earlier, clamped to
      the length of the target month; `None` when that falls before year 1. */
  function MonthsBefore(d: Date, n: int): (r: Option<Date>)
    ensures r.Some? <==> n <= MonthIndex(d)
    ensures r.Some? ==> MonthIndex(r.value) + n == MonthIndex(d)
    ensures r.Some? ==> r.value.day == Min(d.day, LengthOfMonth(MonthIndex(r.value)))
  {
    var k := MonthIndex(d) - n;
    if k < 0 then None
    else Some(YearMonthDay(YearOfMonth(k), MonthOfMonth(k), Min(d.day, LengthOfMonth(k))))
  }

  /** Going back a non-negative number of months never moves forward in time. */
  lemma MonthsBeforeIsEarlier(d: Date, n: nat)
    requires n <= MonthIndex(d)
    ensures Ordinal(MonthsBefore(d, n).value) <= Ordinal(d)
  {
    var s := MonthsBefore(d, n).value;
    MonthIndexRoundTrip(s);
    MonthIndexRoundTrip(d);
    if n > 0 {
      MonthStartGrows(MonthIndex(s), MonthIndex(d));
      OrdinalInMonth(s);
      OrdinalInMonth(d);
    } else {
      assert s.year == d.year && s.month == d.month;
    }
  }

  /** Twelve months before 29 February of a leap year is 28 February. */
  lemma LeapDayYearBefore()
    ensures MonthsBefore(YearMonthDay(2024, 2, 29), 12) == Some(YearMonthDay(2023, 2, 28))
  {
    var k := MonthIndex(YearMonthDay(2024, 2, 29)) - 12;
    assert k == 24265;
    assert YearOfMonth(k) == 2023 && MonthOfMonth(k) == 2;
    assert LengthOfMonth(k) == 28;
  }

  /** One month before 31 March 2024 is 29 February 2024. */
  lemma EndOfMarchMonthBefore()
    ensures MonthsBefore(YearMonthDay(2024, 3, 31), 1) == Some(YearMonthDay(2024, 2, 29))
  {
    var k := MonthIndex(YearMonthDay(2024, 3, 31)) - 1;
    assert k == 24277;
    assert YearOfMonth(k) == 2024 && MonthOfMonth(k) == 2;
    assert LengthOfMonth(k) == 29;
  }
}
