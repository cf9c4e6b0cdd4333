/** The proleptic Gregorian calendar behind `datetime`, on integer microseconds.

    A time is a number of microseconds; day number 1 is 0001-01-01, a Monday, as in
    `date.toordinal`. Times before that day are outside the range of `datetime`. */
module Calendar {
  const SECOND := 1_000_000
  const MINUTE := 60_000_000
  const HOUR := 3_600_000_000
  const DAY := 86_400_000_000

  /** The fields of a `datetime`. */
  datatype DateTime = DateTime(year: int, month: int, day: int, hour: int, minute: int, second: int, micro: int)

  predicate IsLeap(y: int)
  {
    y % 4 == 0 && (y % 100 != 0 || y % 400 == 0)
  }

  function DaysInMonth(y: int, m: int): int
  {
    if m == 2 then (if IsLeap(y) then 29 else 28)
    else if m == 4 || m == 6 || m == 9 || m == 11 then 30
    else 31
  }

  function YearDays(y: int): int
  {
    if IsLeap(y) then 366 else 365
  }

  /** Days before January 1st of year `y`, counted from year 1. */
  function DaysBeforeYear(y: int): int
    decreases y
  {
    if y <= 1 then 0 else DaysBeforeYear(y - 1) + YearDays(y - 1)
  }

  /** Days of the year before month `m`. */
  function DaysBeforeMonth(y: int, m: int): int
    requires 1 <= m <= 13
    decreases m
  {
    if m == 1 then 0 else DaysBeforeMonth(y, m - 1) + DaysInMonth(y, m - 1)
  }

  predicate ValidDate(y: int, m: int, d: int)
  {
    1 <= y && 1 <= m <= 12 && 1 <= d <= DaysInMonth(y, m)
  }

  /** `date.toordinal` */
  function Ordinal(y: int, m: int, d: int): int
    requires 1 <= m <= 12
  {
    DaysBeforeYear(y) + DaysBeforeMonth(y, m) + d
  }

  lemma MonthSums(y: int)
    ensures var leap := if IsLeap(y) then 1 else 0;
            DaysBeforeMonth(y, 3) == 59 + leap && DaysBeforeMonth(y, 7) == 181 + leap
              && DaysBeforeMonth(y, 13) == 365 + leap
  {
    assert DaysBeforeMonth(y, 2) == 31;
    assert DaysBeforeMonth(y, 3) == 31 + DaysInMonth(y, 2);
    assert DaysBeforeMonth(y, 5) == DaysBeforeMonth(y, 4) + 30 == DaysBeforeMonth(y, 3) + 61;
    assert DaysBeforeMonth(y, 7) == DaysBeforeMonth(y, 6) + 30 == DaysBeforeMonth(y, 5) + 61;
    assert DaysBeforeMonth(y, 9) == DaysBeforeMonth(y, 8) + 31 == DaysBeforeMonth(y, 7) + 62;
    assert DaysBeforeMonth(y, 11) == DaysBeforeMonth(y, 10) + 31 == DaysBeforeMonth(y, 9) + 61;
    assert DaysBeforeMonth(y, 13) == DaysBeforeMonth(y, 12) + 31 == DaysBeforeMonth(y, 11) + 61;
  }

  lemma YearLength(y: int)
    requires 1 <= y
    ensures DaysBeforeYear(y + 1) - DaysBeforeYear(y) == YearDays(y)
    ensures DaysBeforeMonth(y, 13) == YearDays(y)
  {
    MonthSums(y);
  }

  lemma {:induction false} MonthsOrdered(y: int, m: int, k: int)
    requires 1 <= m <= k <= 13
    ensures DaysBeforeMonth(y, m) + 28 * (k - m) <= DaysBeforeMonth(y, k)
    decreases k
  {
    if m < k {
      MonthsOrdered(y, m, k - 1);
    }
  }

  lemma {:induction false} YearsOrdered(y: int, z: int)
    requires 1 <= y <= z
    ensures DaysBeforeYear(y) + 365 * (z - y) <= DaysBeforeYear(z)
    decreases z - y
  {
    if y < z {
      YearsOrdered(y, z - 1);
      YearLength(z - 1);
    }
  }

  lemma {:induction false} SomeYear(n: int) returns (y: int)
    requires 1 <= n
    ensures 1 <= y && DaysBeforeYear(y) < n <= DaysBeforeYear(y + 1)
    decreases n
  {
    if n == 1 {
      y := 1;
    } else {
      y := SomeYear(n - 1);
      if DaysBeforeYear(y + 1) < n {
        y := y + 1;
      }
    }
  }

  lemma {:induction false} SomeMonth(y: int, r: int) returns (m: int)
    requires 1 <= r <= DaysBeforeMonth(y, 13)
    ensures 1 <= m <= 12 && DaysBeforeMonth(y, m) < r <= DaysBeforeMonth(y, m + 1)
    decreases r
  {
    if r == 1 {
      m := 1;
    } else {
      m := SomeMonth(y, r - 1);
      if DaysBeforeMonth(y, m + 1) < r {
        m := m + 1;
      }
    }
  }

  /** The date is the one with day number `n`. */
  ghost predicate IsDate(r: (int, int, int), n: int)
  {
    ValidDate(r.0, r.1, r.2) && Ordinal(r.0, r.1, r.2) == n
  }

  lemma DateExists(n: int)
    requires 1 <= n
    ensures exists r :: IsDate(r, n)
  {
    var y := SomeYear(n);
    YearLength(y);
    var m := SomeMonth(y, n - DaysBeforeYear(y));
    assert IsDate((y, m, n - DaysBeforeYear(y) - DaysBeforeMonth(y, m)), n);
  }

  /** `date.fromordinal`, as (year, month, day). */
  ghost function DateOf(n: int): (r: (int, int, int))
    requires 1 <= n
    ensures IsDate(r, n)
  {
    DateExists(n);
    var r :| IsDate(r, n);
    r
  }

  lemma DateInYear(y: int, m: int, d: int)
    requires ValidDate(y, m, d)
    ensures DaysBeforeYear(y) + DaysBeforeMonth(y, m) < Ordinal(y, m, d)
    ensures Ordinal(y, m, d) <= DaysBeforeYear(y) + DaysBeforeMonth(y, m + 1)
    ensures DaysBeforeYear(y) < Ordinal(y, m, d) <= DaysBeforeYear(y + 1)
    ensures 1 <= Ordinal(y, m, d)
  {
    YearLength(y);
    YearsOrdered(1, y);
    MonthsOrdered(y, 1, m);
    MonthsOrdered(y, m + 1, 13);
  }

  lemma YearOfOrdinal(y: int, m: int, d: int, y': int)
    requires ValidDate(y, m, d) && 1 <= y' && DaysBeforeYear(y') < Ordinal(y, m, d) <= DaysBeforeYear(y' + 1)
    ensures y == y'
  {
    DateInYear(y, m, d);
    if y < y' {
      YearsOrdered(y + 1, y');
    } else if y' < y {
      YearsOrdered(y' + 1, y);
    }
  }

  /** Different dates have different day numbers. */
  lemma OrdinalInjective(y: int, m: int, d: int, y': int, m': int, d': int)
    requires ValidDate(y, m, d) && ValidDate(y', m', d') && Ordinal(y, m, d) == Ordinal(y', m', d')
    ensures y == y' && m == m' && d == d'
  {
    DateInYear(y', m', d');
    YearOfOrdinal(y, m, d, y');
    DateInYear(y, m, d);
    if m < m' {
      MonthsOrdered(y, m + 1, m');
    } else if m' < m {
      MonthsOrdered(y, m' + 1, m);
    }
  }

  /** The day numbers of one month, counted from its first day. */
  lemma DaysOfMonth(y: int, m: int, n: int)
    requires 1 <= y && 1 <= m <= 12 && Ordinal(y, m, 1) <= n < Ordinal(y, m, 1) + DaysInMonth(y, m)
    ensures 1 <= n && DateOf(n) == (y, m, n - Ordinal(y, m, 1) + 1)
  {
    var d := n - Ordinal(y, m, 1) + 1;
    DateInYear(y, m, d);
    var (y', m', d') := DateOf(n);
    OrdinalInjective(y, m, d, y', m', d');
  }

  /** The day numbers of one year. */
  lemma DaysOfYear(y: int, n: int)
    requires 1 <= y && DaysBeforeYear(y) < n <= DaysBeforeYear(y + 1)
    ensures 1 <= n && DateOf(n).0 == y
  {
    YearsOrdered(1, y);
    var (y', m', d') := DateOf(n);
    YearOfOrdinal(y', m', d', y);
  }

  // ---------------------------------------------------------------- datetimes

  predicate Valid(t: DateTime)
  {
    && ValidDate(t.year, t.month, t.day)
    && 0 <= t.hour < 24 && 0 <= t.minute < 60 && 0 <= t.second < 60 && 0 <= t.micro < SECOND
  }

  function ToTime(t: DateTime): int
    requires 1 <= t.month <= 12
  {
    Ordinal(t.year, t.month, t.day) * DAY + t.hour * HOUR + t.minute * MINUTE + t.second * SECOND + t.micro
  }

  /** The time of day as hour, minute, second and microsecond. */
  function Clock(u: int): (r: (int, int, int, int))
    requires 0 <= u < DAY
    ensures 0 <= r.0 < 24 && 0 <= r.1 < 60 && 0 <= r.2 < 60 && 0 <= r.3 < SECOND
    ensures r.0 * HOUR + r.1 * MINUTE + r.2 * SECOND + r.3 == u
  {
    var v := u % HOUR;
    var w := v % MINUTE;
    (u / HOUR, v / MINUTE, w / SECOND, w % SECOND)
  }

  /** The `datetime` at a time. */
  ghost function FromTime(t: int): (r: DateTime)
    requires DAY <= t
    ensures Valid(r) && ToTime(r) == t
  {
    var (y, m, d) := DateOf(t / DAY);
    var (hour, minute, second, micro) := Clock(t % DAY);
    assert Ordinal(y, m, d) * DAY + t % DAY == t;
    DateTime(y, m, d, hour, minute, second, micro)
  }

  /** Finds the date of a day number, year by year and then month by month. */
  method FindDate(n: int) returns (y: int, m: int, d: int)
    requires 1 <= n
    ensures (y, m, d) == DateOf(n)
  {
    var rest := n;
    y := 1;
    while YearDays(y) < rest
      invariant 1 <= y && 1 <= rest && n == DaysBeforeYear(y) + rest
      decreases rest
    {
      rest := rest - YearDays(y);
      y := y + 1;
    }
    YearLength(y);
    m := 1;
    while DaysInMonth(y, m) < rest
      invariant 1 <= m <= 12 && 1 <= rest && n == DaysBeforeYear(y) + DaysBeforeMonth(y, m) + rest
      invariant DaysBeforeMonth(y, m) + rest <= DaysBeforeMonth(y, 13)
      decreases rest
    {
      assert m != 12;
      rest := rest - DaysInMonth(y, m);
      m := m + 1;
    }
    d := rest;
    var (y', m', d') := DateOf(n);
    OrdinalInjective(y, m, d, y', m', d');
  }

  method FieldsOf(t: int) returns (r: DateTime)
    requires DAY <= t
    ensures r == FromTime(t)
  {
    var y, m, d := FindDate(t / DAY);
    var (hour, minute, second, micro) := Clock(t % DAY);
    r := DateTime(y, m, d, hour, minute, second, micro);
  }

  /** `date.weekday`: Monday is 0. */
  function Weekday(n: int): int
  {
    (n + 6) % 7
  }

  // ---------------------------------------------------------------- the Gregorian rule

  /** Leap days up to the end of year `y`: one every fourth year, except centuries, except every fourth
      century. */
  function LeapDays(y: int): int
  {
    y / 4 - y / 100 + y / 400
  }

  const MONTH_LENGTHS := [31, 28, 31, 30, 31, 30, 31, 31, 30, 31, 30, 31]
  const MONTH_STARTS := [0, 31, 59, 90, 120, 151, 181, 212, 243, 273, 304, 334]

  /** The leap day of year `y`, if it has one. */
  function LeapDay(y: int): int
  {
    LeapDays(y) - LeapDays(y - 1)
  }

  lemma {:induction false} YearsAreGregorian(y: int)
    requires 1 <= y
    ensures DaysBeforeYear(y) == 365 * (y - 1) + LeapDays(y - 1)
    decreases y
  {
    if 1 < y {
      YearsAreGregorian(y - 1);
      LeapYear(y - 1);
    }
  }

  lemma LeapYear(y: int)
    requires 1 <= y
    ensures LeapDay(y) == if IsLeap(y) then 1 else 0
  {
    Quotient(y, 4);
    Quotient(y, 100);
    Quotient(y, 400);
    Centuries(y);
  }

  lemma Quotient(y: int, d: int)
    requires 1 <= y && d in {4, 100, 400}
    ensures y / d - (y - 1) / d == if y % d == 0 then 1 else 0
  {
    if d == 4 {
    } else if d == 100 {
    } else {
    }
  }

  lemma Centuries(y: int)
    ensures y % 100 == 0 ==> y % 4 == 0
    ensures y % 400 == 0 ==> y % 100 == 0
  {
    var c, f := y / 100, y / 400;
    if y % 100 == 0 {
      assert y == 100 * c;
      FourDivides(y, 25 * c);
    }
    if y % 400 == 0 {
      assert y == 400 * f;
      HundredDivides(y, 4 * f);
    }
  }

  lemma FourDivides(y: int, k: int)
    requires y == 4 * k
    ensures y % 4 == 0
  {
  }

  lemma HundredDivides(y: int, k: int)
    requires y == 100 * k
    ensures y % 100 == 0
  {
  }

  lemma MonthLength(y: int, m: int)
    requires 1 <= y && 1 <= m <= 12
    ensures DaysInMonth(y, m) == MONTH_LENGTHS[m - 1] + if m == 2 then LeapDay(y) else 0
  {
    LeapYear(y);
  }

  lemma {:induction false} MonthStart(y: int, m: int)
    requires 1 <= y && 1 <= m <= 12
    ensures DaysBeforeMonth(y, m) == MONTH_STARTS[m - 1] + if 2 < m then LeapDay(y) else 0
    decreases m
  {
    if 1 < m {
      MonthStart(y, m - 1);
      MonthLength(y, m - 1);
    }
  }

  /** Dates and day numbers are those of the Gregorian calendar. */
  lemma DatesAreGregorian(y: int, m: int, d: int)
    requires 1 <= y && 1 <= m <= 12
    ensures ValidDate(y, m, d) <==> 1 <= d <= MONTH_LENGTHS[m - 1] + if m == 2 then LeapDay(y) else 0
    ensures Ordinal(y, m, d) == 365 * (y - 1) + LeapDays(y - 1) + MONTH_STARTS[m - 1]
                                + (if 2 < m then LeapDay(y) else 0) + d
  {
    YearsAreGregorian(y);
    MonthLength(y, m);
    MonthStart(y, m);
  }

  /** Weekdays follow one another from Saturday, January 1st 2000, on. */
  lemma WeekdaysAreGregorian(n: int)
    ensures Ordinal(2000, 1, 1) == 730_120 && Weekday(730_120) == 5
    ensures 0 <= Weekday(n) < 7 && Weekday(n + 1) == (Weekday(n) + 1) % 7
  {
    DatesAreGregorian(2000, 1, 1);
  }
}
