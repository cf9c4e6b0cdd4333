/** Time buckets: the Python generator of bucket starts and the SQLite truncation to a bucket start.
    The two are written independently in the source; here both are measured against what a bucket
    boundary is. */
module TimeBuckets {
  import opened Calendar

  datatype Stride = Minute | Hour | Day | Week | Month | Year

  /** A local time at which a bucket starts. */
  ghost predicate Boundary(stride: Stride, t: int)
    requires DAY <= t
  {
    match stride
    case Minute => t % MINUTE == 0
    case Hour => t % HOUR == 0
    case Day => t % DAY == 0
    case Week => t % DAY == 0 && Weekday(t / DAY) == 0
    case Month => t % DAY == 0 && DateOf(t / DAY).2 == 1
    case Year => t % DAY == 0 && DateOf(t / DAY).2 == 1 && DateOf(t / DAY).1 == 1
  }

  /** `f` is the start of the bucket that `t` lies in. */
  ghost predicate IsBucketOf(stride: Stride, t: int, f: int)
    requires DAY <= t
  {
    DAY <= f <= t && Boundary(stride, f) && forall b :: f < b <= t ==> !Boundary(stride, b)
  }

  /** `c` is the first bucket start after `b`. */
  ghost predicate IsNext(stride: Stride, b: int, c: int)
    requires DAY <= b
  {
    b < c && Boundary(stride, c) && forall x :: b < x < c ==> !Boundary(stride, x)
  }

  // ---------------------------------------------------------------- the Python side

  /** The rounding down at the start of `get_timestamp_range`. */
  function FloorTo(stride: Stride, t: DateTime): int
    requires Valid(t)
  {
    var midnight := t.(hour := 0, minute := 0, second := 0, micro := 0);
    match stride
    case Minute => ToTime(t.(second := 0, micro := 0))
    case Hour => ToTime(t.(minute := 0, second := 0, micro := 0))
    case Day => ToTime(midnight)
    case Week => ToTime(midnight) - Weekday(Ordinal(t.year, t.month, t.day)) * DAY
    case Month => ToTime(midnight.(day := 1))
    case Year => ToTime(midnight.(month := 1, day := 1))
  }

  /** One step of the loop in `get_timestamp_range`. */
  function Successor(stride: Stride, t: DateTime): int
    requires Valid(t)
  {
    var midnight := t.(hour := 0, minute := 0, second := 0, micro := 0);
    match stride
    case Minute => ToTime(t) + MINUTE
    case Hour => ToTime(t) + HOUR
    case Day => ToTime(t) + DAY
    case Week => ToTime(t) + 7 * DAY
    case Month => ToTime(midnight.(year := t.year + t.month / 12, month := t.month % 12 + 1, day := 1))
    case Year => ToTime(midnight.(year := t.year + 1, month := 1, day := 1))
  }

  // ---------------------------------------------------------------- the SQLite side

  /** `strftime('%w', ...)`: Sunday is 0. */
  function SqliteWeekday(n: int): int
  {
    n % 7
  }

  /** The bucket start that the text parts of a local time give; fractions of a second are dropped. */
  function SqliteStart(stride: Stride, t: DateTime): int
    requires Valid(t)
  {
    var o := t.(micro := 0);
    var date := o.(hour := 0, minute := 0, second := 0);
    match stride
    case Minute => ToTime(o.(second := 0))
    case Hour => ToTime(o.(minute := 0, second := 0))
    case Day => ToTime(date)
    case Week =>
      var dow := SqliteWeekday(Ordinal(o.year, o.month, o.day));
      ToTime(date) - (if dow == 0 then 6 else dow - 1) * DAY
    case Month => ToTime(date.(day := 1))
    case Year => ToTime(date.(month := 1, day := 1))
  }

  /** `_date_trunc_for_sqlite`: shift to local time, rebuild the bucket start from its text parts, shift
      back. */
  ghost function SqliteTrunc(stride: Stride, source: int, offset: int): int
    requires DAY <= source + offset * MINUTE
  {
    SqliteStart(stride, FromTime(source + offset * MINUTE)) - offset * MINUTE
  }

  // ---------------------------------------------------------------- both find the bucket

  lemma MultiplesApart(unit: int, a: int, b: int)
    requires 0 < unit
    ensures unit * a < unit * b ==> unit * a + unit <= unit * b
  {
    if a < b {
      assert unit * (b - a - 1) >= 0;
    } else {
      assert unit * (a - b) >= 0;
    }
  }

  /** Between two consecutive multiples of a unit there is no other. */
  lemma NoMultipleBetween(unit: int, t: int, x: int)
    requires 0 < unit && t % unit == 0 && t < x < t + unit
    ensures x % unit != 0
  {
    assert t == unit * (t / unit) + t % unit;
    assert x == unit * (x / unit) + x % unit;
    MultiplesApart(unit, t / unit, x / unit);
  }

  lemma SplitByUnit(unit: int, whole: int, r: int)
    requires 0 <= r < unit
    ensures (whole * unit + r) / unit == whole && (whole * unit + r) % unit == r
  {
    var x := whole * unit + r;
    assert x == unit * (x / unit) + x % unit;
    MultiplesApart(unit, whole, x / unit);
    MultiplesApart(unit, x / unit, whole);
    assert unit * whole == unit * (x / unit);
    assert unit * (whole - x / unit) == 0;
  }

  lemma AtDay(n: int, u: int)
    requires 0 <= u < DAY
    ensures (n * DAY + u) / DAY == n && (n * DAY + u) % DAY == u
  {
    SplitByUnit(DAY, n, u);
  }

  lemma DateOfOrdinal(y: int, m: int, d: int)
    requires ValidDate(y, m, d)
    ensures 1 <= Ordinal(y, m, d) && DateOf(Ordinal(y, m, d)) == (y, m, d)
  {
    DateInYear(y, m, d);
    var (y', m', d') := DateOf(Ordinal(y, m, d));
    OrdinalInjective(y, m, d, y', m', d');
  }

  /** Whether a day starts a bucket of one of the strides that consist of whole days. */
  ghost predicate DayBoundary(stride: Stride, n: int)
    requires 1 <= n
  {
    match stride
    case Week => Weekday(n) == 0
    case Month => DateOf(n).2 == 1
    case Year => DateOf(n).2 == 1 && DateOf(n).1 == 1
    case _ => true
  }

  /** The first day of the bucket of a date. */
  function FirstDay(stride: Stride, y: int, m: int, d: int): int
    requires 1 <= m <= 12
  {
    match stride
    case Week => Ordinal(y, m, d) - Weekday(Ordinal(y, m, d))
    case Month => Ordinal(y, m, 1)
    case Year => Ordinal(y, 1, 1)
    case _ => Ordinal(y, m, d)
  }

  lemma DaysInsideMonth(y: int, m: int, k: int)
    requires 1 <= y && 1 <= m <= 12 && Ordinal(y, m, 1) < k < Ordinal(y, m, 1) + DaysInMonth(y, m)
    ensures 1 <= k && DateOf(k).2 != 1
  {
    DaysOfMonth(y, m, k);
  }

  lemma DaysInsideYear(y: int, k: int)
    requires 1 <= y && Ordinal(y, 1, 1) < k <= DaysBeforeYear(y + 1)
    ensures 1 <= k && !(DateOf(k).1 == 1 && DateOf(k).2 == 1)
  {
    DaysOfYear(y, k);
    var (y', m', d') := DateOf(k);
  }

  lemma WeekDays(n: int, k: int)
    requires n - Weekday(n) < k <= n
    ensures Weekday(k) != 0
  {
  }

  lemma FirstOfWeekFinds(n: int)
    requires 1 <= n
    ensures 1 <= n - Weekday(n) <= n && DayBoundary(Week, n - Weekday(n))
    ensures forall k :: n - Weekday(n) < k <= n ==> !DayBoundary(Week, k)
  {
    forall k | n - Weekday(n) < k <= n
      ensures Weekday(k) != 0
    {
      WeekDays(n, k);
    }
  }

  lemma FirstOfMonthFinds(y: int, m: int, d: int)
    requires ValidDate(y, m, d)
    ensures 1 <= Ordinal(y, m, 1) <= Ordinal(y, m, d) && DateOf(Ordinal(y, m, 1)).2 == 1
    ensures forall k :: Ordinal(y, m, 1) < k <= Ordinal(y, m, d) ==> 1 <= k && DateOf(k).2 != 1
  {
    DateInYear(y, m, d);
    DateOfOrdinal(y, m, 1);
    forall k | Ordinal(y, m, 1) < k <= Ordinal(y, m, d)
      ensures 1 <= k && DateOf(k).2 != 1
    {
      DaysInsideMonth(y, m, k);
    }
  }

  lemma FirstOfYearFinds(y: int, m: int, d: int)
    requires ValidDate(y, m, d)
    ensures 1 <= Ordinal(y, 1, 1) <= Ordinal(y, m, d) && DayBoundary(Year, Ordinal(y, 1, 1))
    ensures forall k :: Ordinal(y, 1, 1) < k <= Ordinal(y, m, d) ==> 1 <= k && !DayBoundary(Year, k)
  {
    DateInYear(y, m, d);
    DateOfOrdinal(y, 1, 1);
    MonthsOrdered(y, 1, m);
    forall k | Ordinal(y, 1, 1) < k <= Ordinal(y, m, d)
      ensures 1 <= k && !DayBoundary(Year, k)
    {
      DaysInsideYear(y, k);
    }
  }

  lemma FirstDayFinds(stride: Stride, y: int, m: int, d: int)
    requires ValidDate(y, m, d)
    ensures 1 <= FirstDay(stride, y, m, d) <= Ordinal(y, m, d) && DayBoundary(stride, FirstDay(stride, y, m, d))
    ensures forall k :: FirstDay(stride, y, m, d) < k <= Ordinal(y, m, d) ==> !DayBoundary(stride, k)
  {
    match stride
    case Week =>
      DateInYear(y, m, d);
      FirstOfWeekFinds(Ordinal(y, m, d));
    case Month => FirstOfMonthFinds(y, m, d);
    case Year => FirstOfYearFinds(y, m, d);
    case _ => DateInYear(y, m, d);
  }

  /** The first day of the bucket after the one a date starts. */
  function NextFirstDay(stride: Stride, y: int, m: int, d: int): int
    requires 1 <= m <= 12
  {
    match stride
    case Week => Ordinal(y, m, d) + 7
    case Month => Ordinal(y + m / 12, m % 12 + 1, 1)
    case Year => Ordinal(y + 1, 1, 1)
    case _ => Ordinal(y, m, d) + 1
  }

  lemma NextMonthStart(y: int, m: int)
    requires 1 <= y && 1 <= m <= 12
    ensures Ordinal(y + m / 12, m % 12 + 1, 1) == Ordinal(y, m, 1) + DaysInMonth(y, m)
  {
    assert DaysBeforeMonth(y, m + 1) == DaysBeforeMonth(y, m) + DaysInMonth(y, m);
    if m == 12 {
      YearLength(y);
    } else {
      assert m / 12 == 0 && m % 12 == m;
    }
  }

  lemma NextMonthFinds(y: int, m: int)
    requires 1 <= y && 1 <= m <= 12
    ensures var n, next := Ordinal(y, m, 1), Ordinal(y + m / 12, m % 12 + 1, 1);
            1 <= n < next && DayBoundary(Month, next) && forall k :: n < k < next ==> !DayBoundary(Month, k)
  {
    NextMonthStart(y, m);
    DateOfOrdinal(y, m, 1);
    DateOfOrdinal(y + m / 12, m % 12 + 1, 1);
    forall k | Ordinal(y, m, 1) < k < Ordinal(y, m, 1) + DaysInMonth(y, m)
      ensures 1 <= k && DateOf(k).2 != 1
    {
      DaysInsideMonth(y, m, k);
    }
  }

  lemma NextYearStart(y: int)
    requires 1 <= y
    ensures 1 <= Ordinal(y, 1, 1) < Ordinal(y + 1, 1, 1) == DaysBeforeYear(y + 1) + 1
  {
    YearLength(y);
    DateOfOrdinal(y, 1, 1);
  }

  lemma NextYearFinds(y: int)
    requires 1 <= y
    ensures var n, next := Ordinal(y, 1, 1), Ordinal(y + 1, 1, 1);
            1 <= n < next && DayBoundary(Year, next) && forall k :: n < k < next ==> !DayBoundary(Year, k)
  {
    NextYearStart(y);
    DateOfOrdinal(y + 1, 1, 1);
    NoYearBetween(y, Ordinal(y, 1, 1), Ordinal(y + 1, 1, 1));
  }

  lemma NoYearBetween(y: int, n: int, next: int)
    requires 1 <= y && 1 <= n == Ordinal(y, 1, 1) && next == DaysBeforeYear(y + 1) + 1
    ensures forall k :: n < k < next ==> !DayBoundary(Year, k)
  {
    forall k | n < k < next
      ensures !DayBoundary(Year, k)
    {
      DaysInsideYear(y, k);
    }
  }

  lemma NextFirstDayFinds(stride: Stride, y: int, m: int, d: int)
    requires ValidDate(y, m, d) && 1 <= Ordinal(y, m, d) && DayBoundary(stride, Ordinal(y, m, d))
    ensures Ordinal(y, m, d) < NextFirstDay(stride, y, m, d) && DayBoundary(stride, NextFirstDay(stride, y, m, d))
    ensures forall k :: Ordinal(y, m, d) < k < NextFirstDay(stride, y, m, d) ==> !DayBoundary(stride, k)
  {
    match stride
    case Month =>
      DateOfOrdinal(y, m, d);
      NextMonthFinds(y, m);
    case Year =>
      DateOfOrdinal(y, m, d);
      NextYearFinds(y);
    case Week => NextWeekFinds(Ordinal(y, m, d));
    case _ =>
  }

  lemma NextWeekFinds(n: int)
    requires 1 <= n && DayBoundary(Week, n)
    ensures DayBoundary(Week, n + 7) && forall k :: n < k < n + 7 ==> !DayBoundary(Week, k)
  {
  }

  // ---------------------------------------------------------------- from days to times

  predicate OfDays(stride: Stride)
  {
    stride.Day? || stride.Week? || stride.Month? || stride.Year?
  }

  lemma BoundaryOfDays(stride: Stride, t: int)
    requires DAY <= t && OfDays(stride)
    ensures Boundary(stride, t) <==> t % DAY == 0 && DayBoundary(stride, t / DAY)
  {
  }

  /** Only midnights bound buckets of whole days, so the days decide. */
  lemma DaysBound(stride: Stride, first: int, last: int, x: int, u: int)
    requires OfDays(stride) && 1 <= first <= last && 0 <= u < DAY
    requires forall k :: first < k <= last ==> !DayBoundary(stride, k)
    requires first * DAY < x <= last * DAY + u
    ensures !Boundary(stride, x)
  {
    BoundaryOfDays(stride, x);
    if x % DAY == 0 {
      assert first < x / DAY <= last;
    }
  }

  lemma BucketOfDays(stride: Stride, y: int, m: int, d: int, u: int)
    requires OfDays(stride) && ValidDate(y, m, d) && 0 <= u < DAY
    ensures 1 <= Ordinal(y, m, d)
    ensures IsBucketOf(stride, Ordinal(y, m, d) * DAY + u, FirstDay(stride, y, m, d) * DAY)
  {
    var first, last := FirstDay(stride, y, m, d), Ordinal(y, m, d);
    FirstDayFinds(stride, y, m, d);
    AtDay(first, 0);
    BoundaryOfDays(stride, first * DAY);
    forall x | first * DAY < x <= last * DAY + u
      ensures !Boundary(stride, x)
    {
      DaysBound(stride, first, last, x, u);
    }
  }

  /** The part of a time within its day. */
  function TimeOfDay(t: DateTime): int
  {
    t.hour * HOUR + t.minute * MINUTE + t.second * SECOND + t.micro
  }

  lemma DayOfTime(t: DateTime)
    requires Valid(t)
    ensures 0 <= TimeOfDay(t) < DAY && ToTime(t) == Ordinal(t.year, t.month, t.day) * DAY + TimeOfDay(t)
            && DAY <= ToTime(t)
  {
    DateInYear(t.year, t.month, t.day);
  }

  lemma MinuteOfTime(t: DateTime)
    requires Valid(t)
    ensures ToTime(t.(second := 0, micro := 0)) == ToTime(t) - ToTime(t) % MINUTE
  {
    var whole, r := Ordinal(t.year, t.month, t.day) * 1440 + t.hour * 60 + t.minute, t.second * SECOND + t.micro;
    assert ToTime(t) == whole * MINUTE + r;
    SplitByUnit(MINUTE, whole, r);
  }

  lemma HourOfTime(t: DateTime)
    requires Valid(t)
    ensures ToTime(t.(minute := 0, second := 0, micro := 0)) == ToTime(t) - ToTime(t) % HOUR
  {
    var whole := Ordinal(t.year, t.month, t.day) * 24 + t.hour;
    var r := t.minute * MINUTE + t.second * SECOND + t.micro;
    assert ToTime(t) == whole * HOUR + r;
    SplitByUnit(HOUR, whole, r);
  }

  lemma FloorOfUnits(unit: int, t: int)
    requires 0 < unit
    ensures t - unit < t - t % unit <= t && (t - t % unit) % unit == 0
    ensures forall x :: t - t % unit < x <= t ==> x % unit != 0
  {
    var f := t - t % unit;
    assert t == unit * (t / unit) + t % unit;
    SplitByUnit(unit, t / unit, 0);
    assert f == (t / unit) * unit + 0;
    forall x | f < x <= t
      ensures x % unit != 0
    {
      NoMultipleBetween(unit, f, x);
    }
  }

  /** The generator starts at the bucket that the start time lies in. */
  lemma FloorFinds(stride: Stride, t: DateTime)
    requires Valid(t)
    ensures DAY <= ToTime(t) && IsBucketOf(stride, ToTime(t), FloorTo(stride, t))
  {
    DayOfTime(t);
    if stride == Minute {
      MinuteOfTime(t);
      FloorOfUnits(MINUTE, ToTime(t));
      DayStartsUnit(MINUTE, ToTime(t));
    } else if stride == Hour {
      HourOfTime(t);
      FloorOfUnits(HOUR, ToTime(t));
      DayStartsUnit(HOUR, ToTime(t));
    } else {
      BucketOfDays(stride, t.year, t.month, t.day, TimeOfDay(t));
    }
  }

  /** Rounding down to minutes or hours stays on or after the first day. */
  lemma DayStartsUnit(unit: int, t: int)
    requires (unit == MINUTE || unit == HOUR) && DAY <= t
    ensures DAY <= t - t % unit
  {
    FloorOfUnits(unit, t);
    assert DAY % unit == 0;
  }

  lemma SuccessorOfUnits(unit: int, t: int)
    requires 0 < unit && t % unit == 0
    ensures (t + unit) % unit == 0 && forall x :: t < x < t + unit ==> x % unit != 0
  {
    assert t == unit * (t / unit) + t % unit;
    SplitByUnit(unit, t / unit + 1, 0);
    assert t + unit == (t / unit + 1) * unit;
    forall x | t < x < t + unit
      ensures x % unit != 0
    {
      NoMultipleBetween(unit, t, x);
    }
  }

  /** From a midnight, one step reaches the midnight of the next bucket's first day. */
  lemma SuccessorIsMidnight(stride: Stride, t: DateTime)
    requires Valid(t) && OfDays(stride) && TimeOfDay(t) == 0
    ensures Successor(stride, t) == NextFirstDay(stride, t.year, t.month, t.day) * DAY
  {
    MidnightIsZero(t);
  }

  lemma DaysFollow(stride: Stride, n: int, m: int)
    requires OfDays(stride) && 1 <= n < m && DayBoundary(stride, m)
    requires forall k :: n < k < m ==> !DayBoundary(stride, k)
    ensures IsNext(stride, n * DAY, m * DAY)
  {
    AtDay(m, 0);
    BoundaryOfDays(stride, m * DAY);
    forall x | n * DAY < x < m * DAY
      ensures !Boundary(stride, x)
    {
      DaysBound(stride, n, m - 1, x, DAY - 1);
    }
  }

  lemma SuccessorOfDays(stride: Stride, t: DateTime)
    requires Valid(t) && OfDays(stride) && DAY <= ToTime(t) && Boundary(stride, ToTime(t))
    ensures IsNext(stride, ToTime(t), Successor(stride, t))
  {
    DayOfTime(t);
    var n := Ordinal(t.year, t.month, t.day);
    AtDay(n, TimeOfDay(t));
    BoundaryOfDays(stride, ToTime(t));
    NextFirstDayFinds(stride, t.year, t.month, t.day);
    SuccessorIsMidnight(stride, t);
    DaysFollow(stride, n, NextFirstDay(stride, t.year, t.month, t.day));
  }

  /** The loop steps from each bucket start to the next one. */
  lemma SuccessorFinds(stride: Stride, t: DateTime)
    requires Valid(t) && DAY <= ToTime(t) && Boundary(stride, ToTime(t))
    ensures IsNext(stride, ToTime(t), Successor(stride, t))
  {
    if OfDays(stride) {
      SuccessorOfDays(stride, t);
    } else {
      SuccessorOfUnits(if stride == Minute then MINUTE else HOUR, ToTime(t));
    }
  }

  lemma MidnightIsZero(t: DateTime)
    requires Valid(t)
    ensures TimeOfDay(t) == 0 <==> t.hour == 0 && t.minute == 0 && t.second == 0 && t.micro == 0
  {
  }

  /** SQLite counts weekdays from Sunday, the rounding from Monday. */
  lemma SundayFirst(n: int)
    ensures Weekday(n) == if SqliteWeekday(n) == 0 then 6 else SqliteWeekday(n) - 1
  {
  }

  lemma SqliteIsFloor(stride: Stride, t: DateTime)
    requires Valid(t)
    ensures SqliteStart(stride, t) == FloorTo(stride, t)
  {
    SundayFirst(Ordinal(t.year, t.month, t.day));
  }

  /** SQLite truncates to the bucket that the source lies in. */
  lemma SqliteFinds(stride: Stride, source: int, offset: int)
    requires DAY <= source + offset * MINUTE
    ensures IsBucketOf(stride, source + offset * MINUTE, SqliteTrunc(stride, source, offset) + offset * MINUTE)
  {
    FloorFinds(stride, FromTime(source + offset * MINUTE));
    SqliteIsFloor(stride, FromTime(source + offset * MINUTE));
  }

  lemma BucketUnique(stride: Stride, t: int, f: int, g: int)
    requires DAY <= t && IsBucketOf(stride, t, f) && IsBucketOf(stride, t, g)
    ensures f == g
  {
  }

  // ---------------------------------------------------------------- the generator

  /** The bucket starts yielded, in UTC: every boundary from the start's bucket up to the end. */
  ghost predicate IsRange(stride: Stride, start: int, end: int, offset: int, out: seq<int>)
    requires DAY <= start + offset * MINUTE
  {
    var first := SqliteTrunc(stride, start, offset);
    && (forall i, j :: 0 <= i < j < |out| ==> out[i] < out[j])
    && (forall b :: b in out <==>
          first <= b < end && DAY <= b + offset * MINUTE && Boundary(stride, b + offset * MINUTE))
  }

  /** All boundaries from the first up to, but not including, the local time `t` have been yielded. */
  ghost predicate Yielded(stride: Stride, first: int, t: int, delta: int, out: seq<int>)
  {
    && DAY <= first <= t && Boundary(stride, t)
    && (forall i, j :: 0 <= i < j < |out| ==> out[i] < out[j])
    && (forall b :: b in out <==> first <= b + delta < t && Boundary(stride, b + delta))
  }

  lemma YieldOne(stride: Stride, first: int, t: int, delta: int, out: seq<int>, next: int)
    requires Yielded(stride, first, t, delta, out) && IsNext(stride, t, next)
    ensures Yielded(stride, first, next, delta, out + [t - delta])
  {
    var more := out + [t - delta];
    forall i, j | 0 <= i < j < |more|
      ensures more[i] < more[j]
    {
      assert out[i] in out;
    }
    forall b
      ensures b in more <==> first <= b + delta < next && Boundary(stride, b + delta)
    {
    }
  }

  method GetTimestampRange(start: int, end: int, stride: Stride, offset: int) returns (out: seq<int>)
    requires DAY <= start + offset * MINUTE
    ensures IsRange(stride, start, end, offset, out)
  {
    var delta := offset * MINUTE;
    var fields := FieldsOf(start + delta);
    var t := FloorTo(stride, fields);
    ghost var first := t;
    FloorFinds(stride, fields);
    SqliteFinds(stride, start, offset);
    BucketUnique(stride, start + delta, t, SqliteTrunc(stride, start, offset) + delta);
    out := [];
    while t < end + delta
      invariant Yielded(stride, first, t, delta, out)
      invariant forall b :: b in out ==> b < end
      decreases end + delta - t
    {
      fields := FieldsOf(t);
      SuccessorFinds(stride, fields);
      var next := Successor(stride, fields);
      YieldOne(stride, first, t, delta, out, next);
      out := out + [t - delta];
      t := next;
    }
  }

  /** The truncated values of the instants in [start, end). */
  ghost predicate IsTruncated(stride: Stride, start: int, end: int, offset: int, b: int)
    requires DAY <= start + offset * MINUTE
  {
    exists x :: start <= x < end && SqliteTrunc(stride, x, offset) == b
  }

  lemma TruncatedIsInRange(stride: Stride, start: int, end: int, offset: int, x: int)
    requires DAY <= start + offset * MINUTE && start <= x < end
    ensures var b := SqliteTrunc(stride, x, offset);
            && SqliteTrunc(stride, start, offset) <= b < end
            && DAY <= b + offset * MINUTE && Boundary(stride, b + offset * MINUTE)
  {
    SqliteFinds(stride, start, offset);
    SqliteFinds(stride, x, offset);
  }

  lemma InRangeIsTruncated(stride: Stride, start: int, end: int, offset: int, b: int)
    requires DAY <= start + offset * MINUTE && start < end
    requires SqliteTrunc(stride, start, offset) <= b < end
    requires DAY <= b + offset * MINUTE && Boundary(stride, b + offset * MINUTE)
    ensures IsTruncated(stride, start, end, offset, b)
  {
    var x := if b < start then start else b;
    SqliteFinds(stride, start, offset);
    SqliteFinds(stride, x, offset);
    assert SqliteTrunc(stride, x, offset) == b;
  }

  /** For every start before end, offset and stride, the generator yields exactly the values SQLite
      truncates the instants of the range to, in increasing order; for a start at or after the end
      the two agree exactly when the end does not lie past the start's own bucket start. */
  lemma RangeIsTruncation(stride: Stride, start: int, end: int, offset: int, out: seq<int>)
    requires DAY <= start + offset * MINUTE && IsRange(stride, start, end, offset, out)
    ensures (forall b :: b in out <==> IsTruncated(stride, start, end, offset, b))
       <==> start < end || end <= SqliteTrunc(stride, start, offset)
  {
    if start < end {
      forall b
        ensures b in out <==> IsTruncated(stride, start, end, offset, b)
      {
        if x :| start <= x < end && SqliteTrunc(stride, x, offset) == b {
          TruncatedIsInRange(stride, start, end, offset, x);
        }
        if b in out {
          InRangeIsTruncated(stride, start, end, offset, b);
        }
      }
    } else {
      SqliteFinds(stride, start, offset);
      assert SqliteTrunc(stride, start, offset) in out <==> SqliteTrunc(stride, start, offset) < end;
    }
  }
}
