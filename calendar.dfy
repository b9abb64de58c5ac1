/** Proleptic Gregorian date-and-time arithmetic, the way Python's `datetime`
    does it: a date is numbered by its ordinal (0001-01-01 is day 1), an
    instant by ordinal * 86400 plus the second of the day, and adding a
    `timedelta` moves the instant and converts back. Years run from 1 to
    9999; a result past 9999 is an overflow. */
module Calendar {
  import opened Outcomes

  /** A capture timestamp: civil date and time of day, no zone, no fraction. */
  datatype DateTime = DateTime(year: int, month: int, day: int, hour: int, minute: int, second: int)

  const MinYear := 1
  const MaxYear := 9999
  const SecondsPerDay := 86400

  /** The second count of 9999-12-31 23:59:59, the last instant `datetime`
      can represent (`LastInstantSeconds`). */
  const MaxSeconds := DaysBeforeYear(MaxYear + 1) * SecondsPerDay + SecondsPerDay - 1

  predicate IsLeap(y: int) {
    y % 4 == 0 && (y % 100 != 0 || y % 400 == 0)
  }

  function DaysInMonth(y: int, m: int): (n: int)
    requires 1 <= m <= 12
    ensures 28 <= n <= 31
  {
    if m == 2 && IsLeap(y) then 29 else [31, 28, 31, 30, 31, 30, 31, 31, 30, 31, 30, 31][m - 1]
  }

  function DaysInYear(y: int): int {
    if IsLeap(y) then 366 else 365
  }

  /** Days in the years 1 .. y-1. */
  function DaysBeforeYear(y: int): int
    requires y >= MinYear
  {
    var p := y - 1;
    365 * p + p / 4 - p / 100 + p / 400
  }

  /** Days in the months 1 .. m-1 of year y. */
  function DaysBeforeMonth(y: int, m: int): int
    requires 1 <= m <= 12
  {
    [0, 31, 59, 90, 120, 151, 181, 212, 243, 273, 304, 334][m - 1] + (if m > 2 && IsLeap(y) then 1 else 0)
  }

  predicate DateInRange(y: int, m: int, d: int) {
    y >= MinYear && 1 <= m <= 12 && 1 <= d <= DaysInMonth(y, m)
  }

  predicate TimeInRange(h: int, mi: int, s: int) {
    0 <= h < 24 && 0 <= mi < 60 && 0 <= s < 60
  }

  /** A real calendar instant, with no upper bound on the year. */
  predicate InRange(t: DateTime) {
    DateInRange(t.year, t.month, t.day) && TimeInRange(t.hour, t.minute, t.second)
  }

  /** An instant `datetime` can represent. */
  predicate Valid(t: DateTime) {
    InRange(t) && t.year <= MaxYear
  }

  function Ordinal(t: DateTime): int
    requires DateInRange(t.year, t.month, t.day)
  {
    DaysBeforeYear(t.year) + DaysBeforeMonth(t.year, t.month) + t.day
  }

  function SecondOfDay(t: DateTime): int {
    t.hour * 3600 + t.minute * 60 + t.second
  }

  /** Seconds since 0001-01-01 00:00:00 minus one day. */
  function ToSeconds(t: DateTime): int
    requires InRange(t)
  {
    Ordinal(t) * SecondsPerDay + SecondOfDay(t)
  }

  /** The same time of day on the following calendar day. */
  function NextDay(t: DateTime): (r: DateTime)
    requires InRange(t)
    ensures InRange(r) && Ordinal(r) == Ordinal(t) + 1
    ensures SecondOfDay(r) == SecondOfDay(t)
    ensures t.year <= r.year <= t.year + 1
  {
    if t.day < DaysInMonth(t.year, t.month) then t.(day := t.day + 1)
    else if t.month < 12 then
      MonthStep(t.year, t.month);
      t.(month := t.month + 1, day := 1)
    else
      YearStep(t.year);
      t.(year := t.year + 1, month := 1, day := 1)
  }

  /** The same time of day n days later. */
  function AddDays(t: DateTime, n: nat): (r: DateTime)
    requires InRange(t)
    ensures InRange(r) && Ordinal(r) == Ordinal(t) + n
    ensures SecondOfDay(r) == SecondOfDay(t)
    ensures r.year >= t.year
    ensures n == 0 ==> r == t
    ensures n == 1 ==> r.year <= t.year + 1
    decreases n
  {
    if n == 0 then t else AddDays(NextDay(t), n - 1)
  }

  /** `t + timedelta(seconds=k)` before the range check. */
  function AddSeconds(t: DateTime, k: nat): (r: DateTime)
    requires InRange(t)
    ensures InRange(r) && ToSeconds(r) == ToSeconds(t) + k
    ensures r.year >= t.year
    ensures k < SecondsPerDay ==> r.year <= t.year + 1
  {
    var total := SecondOfDay(t) + k;
    var rest := total % SecondsPerDay;
    var date := AddDays(t, total / SecondsPerDay);
    var r := date.(hour := rest / 3600, minute := rest % 3600 / 60, second := rest % 60);
    ClockSplit(rest);
    assert Ordinal(r) == Ordinal(date);
    assert total == total / SecondsPerDay * SecondsPerDay + rest;
    r
  }

  /** A second of the day, split into hour, minute and second. */
  lemma ClockSplit(rest: int)
    requires 0 <= rest < SecondsPerDay
    ensures TimeInRange(rest / 3600, rest % 3600 / 60, rest % 60)
    ensures rest / 3600 * 3600 + rest % 3600 / 60 * 60 + rest % 60 == rest
  {
    var m := rest % 3600;
    assert rest == rest / 3600 * 3600 + m;
    assert m == m / 60 * 60 + m % 60;
    assert rest % 60 == m % 60;
  }

  /** `t + timedelta(seconds=k)`: the valid instant k seconds after t, or
      an overflow when that instant is past the year 9999. */
  function Shift(t: DateTime, k: nat): (r: Result<DateTime>)
    requires Valid(t)
    ensures r.Ok? ==> Valid(r.value) && ToSeconds(r.value) == ToSeconds(t) + k
    ensures r.Err? ==> r.error == OutOfRange
    ensures r.Ok? <==> ToSeconds(t) + k <= MaxSeconds
    ensures t.year < MaxYear && k < SecondsPerDay ==> r.Ok?
  {
    var r := AddSeconds(t, k);
    YearFitsIff(r);
    if r.year <= MaxYear then Ok(r) else Err(OutOfRange)
  }

  /** A calendar instant is representable exactly when its second count is
      at most that of the last representable instant. */
  lemma YearFitsIff(u: DateTime)
    requires InRange(u)
    ensures u.year <= MaxYear <==> ToSeconds(u) <= MaxSeconds
  {
    if u.year <= MaxYear {
      SecondsAtYearEnd(u);
      DaysBeforeYearMonotone(u.year + 1, MaxYear + 1);
    } else {
      OrdinalYearBounds(u);
      DaysBeforeYearMonotone(MaxYear + 1, u.year);
    }
  }

  /** Any instant before the year 9999 is more than a day from the end of
      the range. */
  lemma EarlierYearHasHeadroom(t: DateTime)
    requires Valid(t) && t.year < MaxYear
    ensures ToSeconds(t) + SecondsPerDay <= MaxSeconds
  {
    SecondsAtYearEnd(t);
    DaysBeforeYearMonotone(t.year + 1, MaxYear);
    DaysBeforeYearMonotone(MaxYear, MaxYear + 1);
  }

  /** `MaxSeconds` is the second count of 9999-12-31 23:59:59. */
  lemma LastInstantSeconds()
    ensures Valid(DateTime(MaxYear, 12, 31, 23, 59, 59))
    ensures ToSeconds(DateTime(MaxYear, 12, 31, 23, 59, 59)) == MaxSeconds
  {
    YearLastSecond(MaxYear);
  }

  lemma YearLastSecond(y: int)
    requires y >= MinYear
    ensures InRange(DateTime(y, 12, 31, 23, 59, 59))
    ensures ToSeconds(DateTime(y, 12, 31, 23, 59, 59)) == DaysBeforeYear(y + 1) * SecondsPerDay + SecondsPerDay - 1
  {
    YearStep(y);
  }

  // ---------------------------------------------------------------------
  // Calendar facts

  lemma MonthStep(y: int, m: int)
    requires 1 <= m < 12
    ensures DaysBeforeMonth(y, m + 1) == DaysBeforeMonth(y, m) + DaysInMonth(y, m)
  {
  }

  /** A year holds as many days as its months do, and the year count moves
      by exactly that much. */
  lemma YearStep(y: int)
    requires y >= MinYear
    ensures DaysBeforeMonth(y, 12) + DaysInMonth(y, 12) == DaysInYear(y)
    ensures DaysBeforeYear(y + 1) == DaysBeforeYear(y) + DaysInYear(y)
  {
    LeapCount(y);
  }

  /** Going from y - 1 to y completed years adds one leap day exactly when y is a leap year. */
  lemma LeapCount(y: int)
    requires y >= MinYear
    ensures (y / 4 - (y - 1) / 4) - (y / 100 - (y - 1) / 100) + (y / 400 - (y - 1) / 400)
            == if IsLeap(y) then 1 else 0
  {
    MultipleStep4(y);
    MultipleStep100(y);
    MultipleStep400(y);
    assert y % 400 == 0 ==> y % 100 == 0 by {
      if y % 400 == 0 {
        assert y == 400 * (y / 400) == 100 * (4 * (y / 400));
      }
    }
    assert y % 100 == 0 ==> y % 4 == 0 by {
      if y % 100 == 0 {
        assert y == 100 * (y / 100) == 4 * (25 * (y / 100));
      }
    }
  }

  lemma MultipleStep4(y: int)
    ensures y / 4 - (y - 1) / 4 == if y % 4 == 0 then 1 else 0
  {
    assert y == 4 * (y / 4) + y % 4;
    if y % 4 == 0 {
      assert y - 1 == 4 * (y / 4 - 1) + 3;
    } else {
      assert y - 1 == 4 * (y / 4) + (y % 4 - 1);
    }
  }

  lemma MultipleStep100(y: int)
    ensures y / 100 - (y - 1) / 100 == if y % 100 == 0 then 1 else 0
  {
    assert y == 100 * (y / 100) + y % 100;
    if y % 100 == 0 {
      assert y - 1 == 100 * (y / 100 - 1) + 99;
    } else {
      assert y - 1 == 100 * (y / 100) + (y % 100 - 1);
    }
  }

  lemma MultipleStep400(y: int)
    ensures y / 400 - (y - 1) / 400 == if y % 400 == 0 then 1 else 0
  {
    assert y == 400 * (y / 400) + y % 400;
    if y % 400 == 0 {
      assert y - 1 == 400 * (y / 400 - 1) + 399;
    } else {
      assert y - 1 == 400 * (y / 400) + (y % 400 - 1);
    }
  }

  lemma {:induction false} DaysBeforeYearMonotone(a: int, b: int)
    requires MinYear <= a <= b
    ensures DaysBeforeYear(a) + 365 * (b - a) <= DaysBeforeYear(b)
    decreases b - a
  {
    if a < b {
      YearStep(a);
      DaysBeforeYearMonotone(a + 1, b);
    }
  }

  lemma OrdinalYearBounds(t: DateTime)
    requires DateInRange(t.year, t.month, t.day)
    ensures DaysBeforeYear(t.year) < Ordinal(t) <= DaysBeforeYear(t.year + 1)
  {
    YearStep(t.year);
    MonthsFitInYear(t.year, t.month);
  }

  lemma MonthsFitInYear(y: int, m: int)
    requires y >= MinYear && 1 <= m <= 12
    ensures DaysBeforeMonth(y, m) + DaysInMonth(y, m) <= DaysInYear(y)
  {
  }

  /** The last second of a year comes before the first of the next. */
  lemma SecondsAtYearEnd(t: DateTime)
    requires InRange(t)
    ensures ToSeconds(t) < (DaysBeforeYear(t.year + 1) + 1) * SecondsPerDay
  {
    OrdinalYearBounds(t);
  }

  /** Within a year, a later month starts after an earlier one ends. */
  lemma {:induction false} MonthsInOrder(y: int, m1: int, m2: int)
    requires 1 <= m1 < m2 <= 12
    ensures DaysBeforeMonth(y, m1) + DaysInMonth(y, m1) <= DaysBeforeMonth(y, m2)
    decreases m2 - m1
  {
    MonthStep(y, m1);
    if m1 + 1 < m2 {
      MonthsInOrder(y, m1 + 1, m2);
      MonthStep(y, m1 + 1);
    }
  }

  /** Two calendar dates with the same ordinal are the same date. */
  lemma OrdinalInjective(a: DateTime, b: DateTime)
    requires DateInRange(a.year, a.month, a.day) && DateInRange(b.year, b.month, b.day)
    requires Ordinal(a) == Ordinal(b)
    ensures a.year == b.year && a.month == b.month && a.day == b.day
  {
    OrdinalFixesYear(a, b);
    if a.month < b.month {
      MonthsInOrder(a.year, a.month, b.month);
    } else if b.month < a.month {
      MonthsInOrder(a.year, b.month, a.month);
    }
  }

  /** Dates of different years have different ordinals. */
  lemma OrdinalFixesYear(a: DateTime, b: DateTime)
    requires DateInRange(a.year, a.month, a.day) && DateInRange(b.year, b.month, b.day)
    requires Ordinal(a) == Ordinal(b)
    ensures a.year == b.year
  {
    if a.year < b.year {
      LaterYearLaterOrdinal(a, b);
    } else if b.year < a.year {
      LaterYearLaterOrdinal(b, a);
    }
  }

  lemma LaterYearLaterOrdinal(a: DateTime, b: DateTime)
    requires DateInRange(a.year, a.month, a.day) && DateInRange(b.year, b.month, b.day)
    requires a.year < b.year
    ensures Ordinal(a) < Ordinal(b)
  {
    OrdinalYearBounds(a);
    OrdinalYearBounds(b);
    DaysBeforeYearMonotone(a.year + 1, b.year);
  }

  /** An instant is determined by its second count: the seconds count is a
      faithful encoding of the calendar value. */
  lemma SecondsInjective(a: DateTime, b: DateTime)
    requires InRange(a) && InRange(b)
    requires ToSeconds(a) == ToSeconds(b)
    ensures a == b
  {
    var x := ToSeconds(a);
    assert Ordinal(a) == x / SecondsPerDay == Ordinal(b);
    assert SecondOfDay(a) == x % SecondsPerDay == SecondOfDay(b);
    OrdinalInjective(a, b);
    var sa := SecondOfDay(a);
    assert a.hour == sa / 3600 == b.hour;
    assert a.minute == (sa - a.hour * 3600) / 60 == b.minute;
  }

  /** Adding seconds lands on the one valid instant that is k seconds later. */
  lemma ShiftIsUnique(t: DateTime, k: nat, u: DateTime)
    requires Valid(t) && Valid(u)
    requires ToSeconds(u) == ToSeconds(t) + k
    ensures Shift(t, k) == Ok(u)
  {
    SecondsInjective(AddSeconds(t, k), u);
  }

  // ---------------------------------------------------------------------
  // Rollover examples

  lemma DayRollover()
    ensures Shift(DateTime(2023, 1, 1, 23, 30, 0), 3600) == Ok(DateTime(2023, 1, 2, 0, 30, 0))
  {
    ShiftIsUnique(DateTime(2023, 1, 1, 23, 30, 0), 3600, DateTime(2023, 1, 2, 0, 30, 0));
  }

  lemma YearRollover()
    ensures Shift(DateTime(2023, 12, 31, 23, 0, 0), 3600) == Ok(DateTime(2024, 1, 1, 0, 0, 0))
  {
    YearEndSeconds(2023);
    ShiftIsUnique(DateTime(2023, 12, 31, 23, 0, 0), 3600, DateTime(2024, 1, 1, 0, 0, 0));
  }

  /** The last hour of a year is followed by midnight of the next. */
  lemma YearEndSeconds(y: int)
    requires MinYear <= y < MaxYear
    ensures Valid(DateTime(y, 12, 31, 23, 0, 0)) && Valid(DateTime(y + 1, 1, 1, 0, 0, 0))
    ensures ToSeconds(DateTime(y + 1, 1, 1, 0, 0, 0)) == ToSeconds(DateTime(y, 12, 31, 23, 0, 0)) + 3600
  {
    YearStep(y);
  }

  lemma LeapYearFebruaryRollover()
    ensures Shift(DateTime(2024, 2, 28, 23, 30, 0), 3600) == Ok(DateTime(2024, 2, 29, 0, 30, 0))
  {
    ShiftIsUnique(DateTime(2024, 2, 28, 23, 30, 0), 3600, DateTime(2024, 2, 29, 0, 30, 0));
  }

  lemma LeapDayRollover()
    ensures Shift(DateTime(2024, 2, 29, 23, 30, 0), 3600) == Ok(DateTime(2024, 3, 1, 0, 30, 0))
  {
    ShiftIsUnique(DateTime(2024, 2, 29, 23, 30, 0), 3600, DateTime(2024, 3, 1, 0, 30, 0));
  }

  lemma CommonYearFebruaryRollover()
    ensures Shift(DateTime(2023, 2, 28, 23, 30, 0), 3600) == Ok(DateTime(2023, 3, 1, 0, 30, 0))
  {
    ShiftIsUnique(DateTime(2023, 2, 28, 23, 30, 0), 3600, DateTime(2023, 3, 1, 0, 30, 0));
  }

  /** 2100 is divisible by 4 but is not a leap year. */
  lemma CenturyFebruaryRollover()
    ensures Shift(DateTime(2100, 2, 28, 23, 30, 0), 3600) == Ok(DateTime(2100, 3, 1, 0, 30, 0))
  {
    ShiftIsUnique(DateTime(2100, 2, 28, 23, 30, 0), 3600, DateTime(2100, 3, 1, 0, 30, 0));
  }

  /** The last hour `datetime` can represent cannot be moved forward. */
  lemma OverflowAtEndOfRange()
    ensures Shift(DateTime(9999, 12, 31, 23, 0, 0), 3600) == Err(OutOfRange)
  {
    var t := DateTime(9999, 12, 31, 23, 0, 0);
    assert AddSeconds(t, 3600).year == AddDays(t, 1).year == MaxYear + 1;
  }
}
