/**
 * A proleptic Gregorian calendar at a fixed UTC offset. It stands in for
 * datetime.fromtimestamp (seconds to civil fields) and for
 * mktime(dt.timetuple()) (civil fields to seconds) on a machine whose local
 * time is UTC; day 0 is 1970-01-01.
 */
module Calendar {

  import opened Wrappers

  const MinYear: int := 1
  const MaxYear: int := 9999

  predicate IsLeapYear(y: int) {
    y % 4 == 0 && (y % 100 != 0 || y % 400 == 0)
  }

  function DaysInYear(y: int): int {
    if IsLeapYear(y) then 366 else 365
  }

  function DaysInMonth(y: int, m: int): (n: int)
    requires 1 <= m <= 12
    ensures 28 <= n <= 31
  {
    if m == 2 then (if IsLeapYear(y) then 29 else 28)
    else if m == 4 || m == 6 || m == 9 || m == 11 then 30
    else 31
  }

  /** Days of year y that precede the first day of month m (m == 13: the whole year). */
  function DaysBeforeMonth(y: int, m: int): int
    requires 1 <= m <= 13
  {
    [0, 31, 59, 90, 120, 151, 181, 212, 243, 273, 304, 334, 365][m - 1]
      + (if m > 2 && IsLeapYear(y) then 1 else 0)
  }

  lemma DaysBeforeMonthStep(y: int, m: int)
    requires 1 <= m <= 12
    ensures DaysBeforeMonth(y, m + 1) == DaysBeforeMonth(y, m) + DaysInMonth(y, m)
    ensures DaysBeforeMonth(y, 13) == DaysInYear(y)
  {
  }

  lemma {:induction false} DaysBeforeMonthMonotone(y: int, a: int, b: int)
    requires 1 <= a < b <= 13
    ensures DaysBeforeMonth(y, a + 1) <= DaysBeforeMonth(y, b)
    decreases b - a
  {
    if a + 1 < b {
      DaysBeforeMonthMonotone(y, a + 1, b);
      DaysBeforeMonthStep(y, a + 1);
    }
  }

  /** Leap days in the years before y, counted from an arbitrary fixed origin. */
  function LeapDaysBefore(y: int): int {
    (y - 1) / 4 - (y - 1) / 100 + (y - 1) / 400
  }

  /** Day number of January 1st of year y. */
  function DaysBeforeYear(y: int): int {
    365 * (y - 1970) + LeapDaysBefore(y) - LeapDaysBefore(1970)
  }

  /** Going from y - 1 to y, the quotient by 4 grows exactly when y is a multiple of 4. */
  lemma QuarterStep(y: int)
    ensures y / 4 - (y - 1) / 4 == if y % 4 == 0 then 1 else 0
  {
    var q, r := (y - 1) / 4, (y - 1) % 4;
    if r == 3 {
      assert y == 4 * (q + 1);
    } else {
      assert y == 4 * q + (r + 1);
    }
  }

  lemma CenturyStep(y: int)
    ensures y / 100 - (y - 1) / 100 == if y % 100 == 0 then 1 else 0
    ensures y % 100 == 0 ==> y % 4 == 0
  {
    var q, r := (y - 1) / 100, (y - 1) % 100;
    if r == 99 {
      assert y == 100 * (q + 1) == 4 * (25 * q + 25);
    } else {
      assert y == 100 * q + (r + 1);
    }
  }

  lemma QuadricentennialStep(y: int)
    ensures y / 400 - (y - 1) / 400 == if y % 400 == 0 then 1 else 0
    ensures y % 400 == 0 ==> y % 100 == 0
  {
    var q, r := (y - 1) / 400, (y - 1) % 400;
    if r == 399 {
      assert y == 400 * (q + 1) == 100 * (4 * q + 4);
    } else {
      assert y == 400 * q + (r + 1);
    }
  }

  lemma LeapDaysStep(y: int)
    ensures LeapDaysBefore(y + 1) == LeapDaysBefore(y) + (if IsLeapYear(y) then 1 else 0)
  {
    QuarterStep(y);
    CenturyStep(y);
    QuadricentennialStep(y);
  }

  lemma DaysBeforeYearStep(y: int)
    ensures DaysBeforeYear(y + 1) == DaysBeforeYear(y) + DaysInYear(y)
  {
    LeapDaysStep(y);
  }

  lemma {:induction false} DaysBeforeYearMonotone(a: int, b: int)
    requires a < b
    ensures DaysBeforeYear(a) + 365 * (b - a) <= DaysBeforeYear(b)
    decreases b - a
  {
    DaysBeforeYearStep(b - 1);
    if a < b - 1 {
      DaysBeforeYearMonotone(a, b - 1);
    }
  }

  lemma DaysBeforeYearLe(a: int, b: int)
    requires a <= b
    ensures DaysBeforeYear(a) <= DaysBeforeYear(b)
  {
    if a < b {
      DaysBeforeYearMonotone(a, b);
    }
  }

  /** How far day n lies outside year y; zero when n falls in year y. */
  function YearDistance(n: int, y: int): nat {
    if n < DaysBeforeYear(y) then DaysBeforeYear(y) - n
    else if n >= DaysBeforeYear(y + 1) then n - DaysBeforeYear(y)
    else 0
  }

  /** The year containing day n, searched outward from year y. */
  function YearSearch(n: int, y: int): (r: int)
    ensures DaysBeforeYear(r) <= n < DaysBeforeYear(r + 1)
    decreases YearDistance(n, y)
  {
    DaysBeforeYearStep(y - 1);
    DaysBeforeYearStep(y);
    DaysBeforeYearStep(y + 1);
    if n < DaysBeforeYear(y) then YearSearch(n, y - 1)
    else if n >= DaysBeforeYear(y + 1) then YearSearch(n, y + 1)
    else y
  }

  lemma YearSearchUnique(n: int, y: int, z: int)
    requires DaysBeforeYear(y) <= n < DaysBeforeYear(y + 1)
    ensures YearSearch(n, z) == y
  {
    var r := YearSearch(n, z);
    if r < y {
      DaysBeforeYearLe(r + 1, y);
    } else if y < r {
      DaysBeforeYearLe(y + 1, r);
    }
  }

  /** The month of year y containing day k of that year (k counted from 0). */
  function MonthSearch(y: int, k: int, m: int): (r: int)
    requires 1 <= m <= 12
    requires DaysBeforeMonth(y, m) <= k < DaysInYear(y)
    ensures m <= r <= 12
    ensures DaysBeforeMonth(y, r) <= k < DaysBeforeMonth(y, r + 1)
    decreases 12 - m
  {
    DaysBeforeMonthStep(y, m);
    if m == 12 || k < DaysBeforeMonth(y, m + 1) then m
    else MonthSearch(y, k, m + 1)
  }

  lemma MonthSearchUnique(y: int, k: int, m: int)
    requires 1 <= m <= 12
    requires DaysBeforeMonth(y, m) <= k < DaysBeforeMonth(y, m + 1)
    ensures k < DaysInYear(y)
    ensures MonthSearch(y, k, 1) == m
  {
    DaysBeforeMonthStep(y, m);
    if m < 12 {
      DaysBeforeMonthMonotone(y, m, 13);
    }
    var r := MonthSearch(y, k, 1);
    if r < m {
      DaysBeforeMonthMonotone(y, r, m);
    } else if m < r {
      DaysBeforeMonthMonotone(y, m, r);
    }
  }

  datatype Date = Date(year: int, month: int, day: int)

  predicate ValidDate(d: Date) {
    1 <= d.month <= 12 && 1 <= d.day <= DaysInMonth(d.year, d.month)
  }

  /** Day number of a civil date (days from 1970-01-01). */
  function DaysFromCivil(d: Date): int
    requires 1 <= d.month <= 12
  {
    DaysBeforeYear(d.year) + DaysBeforeMonth(d.year, d.month) + d.day - 1
  }

  /** A year within a year or two of day n's, from the mean Gregorian year of 146097/400 days. */
  function YearGuess(n: int): int {
    1970 + n * 400 / 146097
  }

  /** The civil date of day number n. */
  function CivilFromDays(n: int): (d: Date)
    ensures ValidDate(d)
    ensures DaysFromCivil(d) == n
  {
    var y := YearSearch(n, YearGuess(n));
    DaysBeforeYearStep(y);
    var k := n - DaysBeforeYear(y);
    var m := MonthSearch(y, k, 1);
    DaysBeforeMonthStep(y, m);
    Date(y, m, k - DaysBeforeMonth(y, m) + 1)
  }

  /** Converting a valid date to its day number and back gives the date again. */
  lemma CivilFromDaysInverse(d: Date)
    requires ValidDate(d)
    ensures CivilFromDays(DaysFromCivil(d)) == d
  {
    var n := DaysFromCivil(d);
    var k := n - DaysBeforeYear(d.year);
    DaysBeforeMonthStep(d.year, d.month);
    MonthSearchUnique(d.year, k, d.month);
    DaysBeforeYearStep(d.year);
    YearSearchUnique(n, d.year, YearGuess(n));
  }

  /** The first day of the month after month m of year y. */
  function NextMonth(y: int, m: int): (d: Date)
    requires 1 <= m <= 12
    ensures ValidDate(d) && d.day == 1
  {
    if m == 12 then Date(y + 1, 1, 1) else Date(y, m + 1, 1)
  }

  /** A month is exactly as many days long as the gap to the next month's first day. */
  lemma NextMonthDays(y: int, m: int)
    requires 1 <= m <= 12
    ensures DaysFromCivil(NextMonth(y, m)) == DaysFromCivil(Date(y, m, 1)) + DaysInMonth(y, m)
  {
    DaysBeforeMonthStep(y, m);
    DaysBeforeYearStep(y);
  }

  /** A naive datetime, as Python's datetime holds it. */
  datatype DateTime = DateTime(year: int, month: int, day: int,
                               hour: int, minute: int, second: int, microsecond: int)

  function DateOf(dt: DateTime): Date {
    Date(dt.year, dt.month, dt.day)
  }

  predicate WellFormed(dt: DateTime) {
    && ValidDate(DateOf(dt))
    && 0 <= dt.hour < 24 && 0 <= dt.minute < 60 && 0 <= dt.second < 60
    && 0 <= dt.microsecond < 1000000
  }

  /** Civil fields of a whole-second timestamp. */
  function FromSeconds(s: int): (dt: DateTime)
    ensures WellFormed(dt) && dt.microsecond == 0
  {
    var d := CivilFromDays(s / 86400);
    var sod := s % 86400;
    DateTime(d.year, d.month, d.day, sod / 3600, sod % 3600 / 60, sod % 60, 0)
  }

  /** The timestamp of a datetime, ignoring microseconds as mktime(dt.timetuple()) does. */
  function ToSeconds(dt: DateTime): int
    requires 1 <= dt.month <= 12
  {
    DaysFromCivil(DateOf(dt)) * 86400 + dt.hour * 3600 + dt.minute * 60 + dt.second
  }

  /** Splits a second of the day into hour, minute and second. */
  lemma ClockDecomposition(sod: int)
    requires 0 <= sod < 86400
    ensures sod == sod / 3600 * 3600 + sod % 3600 / 60 * 60 + sod % 60
    ensures 0 <= sod / 3600 < 24 && 0 <= sod % 3600 / 60 < 60
  {
  }

  lemma ToSecondsFromSeconds(s: int)
    ensures ToSeconds(FromSeconds(s)) == s
  {
    var n, sod := s / 86400, s % 86400;
    assert s == n * 86400 + sod;
    ClockDecomposition(sod);
    assert DaysFromCivil(DateOf(FromSeconds(s))) == n;
  }

  /** Whole days and a second of the day combine into a timestamp that splits back into them. */
  lemma DaySplit(n: int, sod: int)
    requires 0 <= sod < 86400
    ensures (n * 86400 + sod) / 86400 == n
    ensures (n * 86400 + sod) % 86400 == sod
  {
  }

  /** Hour, minute and second combine into a second of the day that splits back into them. */
  lemma ClockSplit(h: int, m: int, sec: int)
    requires 0 <= h < 24 && 0 <= m < 60 && 0 <= sec < 60
    ensures var sod := h * 3600 + m * 60 + sec;
            && 0 <= sod < 86400
            && sod / 3600 == h && sod % 3600 / 60 == m && sod % 60 == sec
  {
  }

  lemma FromSecondsToSeconds(dt: DateTime)
    requires WellFormed(dt) && dt.microsecond == 0
    ensures FromSeconds(ToSeconds(dt)) == dt
  {
    ClockSplit(dt.hour, dt.minute, dt.second);
    DaySplit(DaysFromCivil(DateOf(dt)), dt.hour * 3600 + dt.minute * 60 + dt.second);
    CivilFromDaysInverse(DateOf(dt));
  }

  /** The timestamp of January 1st, 00:00:00, of year y. */
  function NewYear(y: int): int {
    ToSeconds(DateTime(y, 1, 1, 0, 0, 0, 0))
  }

  lemma NewYearDays(y: int)
    ensures NewYear(y) == DaysBeforeYear(y) * 86400
  {
  }

  lemma NewYearCivil(y: int)
    ensures FromSeconds(NewYear(y)) == DateTime(y, 1, 1, 0, 0, 0, 0)
  {
    FromSecondsToSeconds(DateTime(y, 1, 1, 0, 0, 0, 0));
  }

  /** The year of a whole-second timestamp. */
  function YearOf(s: int): int {
    FromSeconds(s).year
  }

  /** The civil year of day n is the year whose January 1st is the last one not after n. */
  lemma CivilYearBounds(n: int)
    ensures DaysBeforeYear(CivilFromDays(n).year) <= n < DaysBeforeYear(CivilFromDays(n).year + 1)
  {
  }

  /** A timestamp lies in year YearOf(s): between that year's and the next year's January 1st. */
  lemma YearOfBounds(s: int)
    ensures NewYear(YearOf(s)) <= s < NewYear(YearOf(s) + 1)
  {
    var n := s / 86400;
    var y := CivilFromDays(n).year;
    assert y == YearOf(s);
    CivilYearBounds(n);
    NewYearDays(y);
    NewYearDays(y + 1);
    DayBounds(s, DaysBeforeYear(y), DaysBeforeYear(y + 1));
  }

  lemma DayBounds(s: int, a: int, b: int)
    requires a <= s / 86400 < b
    ensures a * 86400 <= s < b * 86400
  {
  }

  lemma {:induction false} NewYearIncreasing(a: int, b: int)
    requires a < b
    ensures NewYear(a) < NewYear(b)
  {
    NewYearDays(a);
    NewYearDays(b);
    DaysBeforeYearMonotone(a, b);
  }

  /** The first instant after the supported calendar: 10000-01-01T00:00:00. */
  const EndOfTime: int := 253402300800

  /** fromtimestamp succeeds exactly for instants whose civil year is 1..9999. */
  predicate Representable(x: real) {
    MinYear <= YearOf(x.Floor) <= MaxYear
  }

  /**
   * datetime.fromtimestamp(x): the civil fields of Floor(x) with the
   * sub-second part as microseconds, or None where Python raises ValueError.
   */
  function FromTimestamp(x: real): (r: Option<DateTime>)
    ensures r.Some? <==> Representable(x)
    ensures r.Some? ==> WellFormed(r.value) && ToSeconds(r.value) == x.Floor
  {
    var s := x.Floor;
    var micro := ((x - s as real) * 1000000.0).Floor;
    ToSecondsFromSeconds(s);
    if Representable(x) then Some(FromSeconds(s).(microsecond := micro)) else None
  }

  /** The first instant of the supported calendar: 0001-01-01T00:00:00. */
  const StartOfTime: int := -62135596800

  lemma EndsOfTime()
    ensures StartOfTime == NewYear(MinYear)
    ensures EndOfTime == NewYear(MaxYear + 1)
  {
    NewYearDays(MinYear);
    NewYearDays(MaxYear + 1);
  }

  /** The whole-second instants a Python datetime can hold. */
  predicate InRange(s: int) {
    StartOfTime <= s < EndOfTime
  }

  /** fromtimestamp accepts x exactly when the whole second of x lies in the supported calendar. */
  lemma RepresentableIff(x: real)
    ensures Representable(x) <==> InRange(x.Floor)
  {
    var s := x.Floor;
    var y := YearOf(s);
    YearOfBounds(s);
    EndsOfTime();
    if y < MinYear {
      if y + 1 < MinYear {
        NewYearIncreasing(y + 1, MinYear);
      }
    } else if y > MaxYear {
      if MaxYear + 1 < y {
        NewYearIncreasing(MaxYear + 1, y);
      }
    } else {
      if MinYear < y {
        NewYearIncreasing(MinYear, y);
      }
      if y + 1 < MaxYear + 1 {
        NewYearIncreasing(y + 1, MaxYear + 1);
      }
    }
  }

  /** Python's datetime order on well-formed values: a is an earlier instant than b. */
  predicate Before(a: DateTime, b: DateTime)
    requires 1 <= a.month <= 12 && 1 <= b.month <= 12
  {
    ToSeconds(a) < ToSeconds(b) || (ToSeconds(a) == ToSeconds(b) && a.microsecond < b.microsecond)
  }

  /** The first whole second that is not earlier than dt. */
  function CeilSeconds(dt: DateTime): (r: int)
    requires WellFormed(dt)
    ensures ToSeconds(dt) <= r <= ToSeconds(dt) + 1
  {
    ToSeconds(dt) + (if dt.microsecond > 0 then 1 else 0)
  }

  /** A whole-second datetime is earlier than dt exactly when its timestamp is below CeilSeconds(dt). */
  lemma BeforeIffBelowCeil(a: DateTime, dt: DateTime)
    requires WellFormed(a) && a.microsecond == 0 && WellFormed(dt)
    ensures Before(a, dt) <==> ToSeconds(a) < CeilSeconds(dt)
  {
  }

  /** Whole seconds below the ceiling of fromtimestamp(x) are below x itself. */
  lemma BelowCeilSeconds(t: int, x: real)
    requires Representable(x)
    ensures t < CeilSeconds(FromTimestamp(x).value) ==> t as real < x
    ensures t < x.Floor ==> t < CeilSeconds(FromTimestamp(x).value)
    ensures CeilSeconds(FromTimestamp(x).value) <= EndOfTime
  {
    var dt := FromTimestamp(x).value;
    RepresentableIff(x);
    if dt.microsecond > 0 {
      assert 0.0 < x - x.Floor as real;
    }
  }

  /**
   * dt stands for fromtimestamp(x) as far as comparisons with whole seconds
   * go: it holds the whole second of x, and whole seconds below its ceiling
   * are below x.
   */
  predicate Converted(x: real, dt: DateTime) {
    WellFormed(dt) && ToSeconds(dt) == x.Floor && (CeilSeconds(dt) - 1) as real < x
  }

  /** fromtimestamp(x), where it succeeds, is a conversion of x to a datetime of years 1..9999. */
  lemma FromTimestampConverted(x: real)
    requires Representable(x)
    ensures Converted(x, FromTimestamp(x).value) && InRange(x.Floor)
  {
    BelowCeilSeconds(CeilSeconds(FromTimestamp(x).value) - 1, x);
    RepresentableIff(x);
  }

  /**
   * dt + timedelta(seconds=n): OverflowError when the result leaves years
   * 1..9999. By FromSecondsToSeconds the contract fixes the result: a
   * well-formed datetime is determined by its timestamp and microsecond.
   */
  method Add(dt: DateTime, n: int) returns (r: Result<DateTime, Error>)
    requires WellFormed(dt)
    ensures r.Ok? <==> InRange(ToSeconds(dt) + n)
    ensures r.Err? ==> r.error == OverflowError
    ensures r.Ok? ==> && WellFormed(r.value)
                      && ToSeconds(r.value) == ToSeconds(dt) + n
                      && r.value.microsecond == dt.microsecond
  {
    var s := ToSeconds(dt) + n;
    if InRange(s) {
      ToSecondsFromSeconds(s);
      r := Ok(FromSeconds(s).(microsecond := dt.microsecond));
    } else {
      r := Err(OverflowError);
    }
  }

  /** Months counted from year 0: month m of year y has index 12 * y + m - 1. */
  function MonthIndex(dt: DateTime): int {
    12 * dt.year + dt.month - 1
  }

  /** Midnight of the first day of month k. */
  function MonthStart(k: int): (dt: DateTime)
    ensures WellFormed(dt) && MonthIndex(dt) == k
    ensures dt.day == 1 && dt.hour == 0 && dt.minute == 0 && dt.second == 0 && dt.microsecond == 0
  {
    DateTime(k / 12, k % 12 + 1, 1, 0, 0, 0, 0)
  }

  /** The timestamp of midnight on the first day of month k. */
  function FirstOfMonth(k: int): int {
    ToSeconds(MonthStart(k))
  }

  /** dt.replace(day=1, hour=0, minute=0, second=0, microsecond=0) is the start of dt's month. */
  lemma MonthStartOfIndex(dt: DateTime)
    requires 1 <= dt.month <= 12
    ensures MonthStart(MonthIndex(dt)) == dt.(day := 1, hour := 0, minute := 0, second := 0, microsecond := 0)
  {
  }

  lemma FirstOfMonthDays(k: int)
    ensures FirstOfMonth(k) == DaysFromCivil(DateOf(MonthStart(k))) * 86400
  {
  }

  /** The month after month k starts on the day NextMonth names. */
  lemma MonthStartNext(k: int)
    ensures DateOf(MonthStart(k + 1)) == NextMonth(k / 12, k % 12 + 1)
  {
  }

  /** Month k lasts DaysInMonth days: the next month starts that many days later. */
  lemma FirstOfMonthStep(k: int)
    ensures FirstOfMonth(k + 1) == FirstOfMonth(k) + DaysInMonth(k / 12, k % 12 + 1) * 86400
  {
    var y, m := k / 12, k % 12 + 1;
    FirstOfMonthDays(k);
    FirstOfMonthDays(k + 1);
    MonthStartNext(k);
    NextMonthDays(y, m);
    assert DateOf(MonthStart(k)) == Date(y, m, 1);
  }

  /**
   * Thirty-one days after the first of a month is day 1 to 4 of the next
   * month at midnight, so resetting the day to 1 gives exactly the next month.
   */
  lemma ThirtyOneDaysLater(k: int, s: int)
    requires s == FirstOfMonth(k) + 31 * 86400
    ensures var dt := FromSeconds(s);
            && MonthIndex(dt) == k + 1 && 1 <= dt.day <= 4
            && dt.(day := 1) == MonthStart(k + 1)
  {
    var len := DaysInMonth(k / 12, k % 12 + 1);
    FirstOfMonthStep(k);
    var start := MonthStart(k + 1);
    var target := start.(day := 32 - len);
    assert WellFormed(target);
    assert ToSeconds(target) == ToSeconds(start) + (31 - len) * 86400;
    FromSecondsToSeconds(target);
  }

  lemma FirstOfMonthNext(k: int)
    ensures FirstOfMonth(k) + 28 * 86400 <= FirstOfMonth(k + 1)
  {
    FirstOfMonthStep(k);
  }
}
