/**
 * Candidate ticks of the year tier: January 1st, midnight, of every year
 * strictly between the years of dt1 and dt2.
 */
module YearTicks {

  import opened Calendar
  import opened Sequences

  /** The new years of a, a + 1, ..., b - 1: what range(a, b) turns into. */
  function NewYears(a: int, b: int): seq<int>
    decreases b - a
  {
    if a < b then NewYears(a, b - 1) + [NewYear(b - 1)] else []
  }

  /** One more year at the end of the range appends its new year. */
  lemma NewYearsSnoc(a: int, y: int)
    requires a <= y
    ensures NewYears(a, y + 1) == NewYears(a, y) + [NewYear(y)]
  {
    assert y + 1 - 1 == y;
  }

  /** range(a, b) has b - a years, none when b <= a. */
  lemma {:induction false} NewYearsLength(a: int, b: int)
    ensures |NewYears(a, b)| == if a < b then b - a else 0
    decreases b - a
  {
    if a < b {
      NewYearsLength(a, b - 1);
    }
  }

  /** Year y of the range is its (y - a)-th tick. */
  lemma {:induction false} NewYearsAt(a: int, b: int, y: int)
    requires a <= y < b
    ensures |NewYears(a, b)| == b - a
    ensures NewYears(a, b)[y - a] == NewYear(y)
    decreases b - a
  {
    NewYearsLength(a, b);
    NewYearsLength(a, b - 1);
    if y < b - 1 {
      NewYearsAt(a, b - 1, y);
    }
  }

  /** The new years of the range come in increasing order. */
  lemma NewYearsIncreasing(a: int, b: int)
    ensures Increasing(NewYears(a, b))
  {
    var s := NewYears(a, b);
    NewYearsLength(a, b);
    forall i, j | 0 <= i < j < |s|
      ensures s[i] < s[j]
    {
      var y, z := a + i, a + j;
      NewYearsAt(a, b, y);
      NewYearsAt(a, b, z);
      NewYearIncreasing(y, z);
    }
  }

  /** The new year of y is a tick exactly when a <= y < b: both ends of the range are exclusive of b. */
  lemma NewYearsHas(a: int, b: int, y: int)
    ensures NewYear(y) in NewYears(a, b) <==> a <= y < b
  {
    var s := NewYears(a, b);
    NewYearsLength(a, b);
    if a <= y < b {
      NewYearsAt(a, b, y);
    }
    if NewYear(y) in s {
      var i :| 0 <= i < |s| && s[i] == NewYear(y);
      var z := a + i;
      NewYearsAt(a, b, z);
      if y < z {
        NewYearIncreasing(y, z);
      } else if z < y {
        NewYearIncreasing(z, y);
      }
    }
  }

  /** Every tick of the range is January 1st, midnight, of one of its years. */
  lemma NewYearsAreNewYears(a: int, b: int, i: int)
    requires 0 <= i < |NewYears(a, b)|
    ensures a <= a + i < b
    ensures FromSeconds(NewYears(a, b)[i]) == DateTime(a + i, 1, 1, 0, 0, 0, 0)
  {
    var y := a + i;
    NewYearsLength(a, b);
    NewYearsAt(a, b, y);
    NewYearCivil(y);
  }

  /** A datetime lies in its own year: not before its January 1st, before the next one. */
  lemma YearOfInstant(dt: DateTime)
    requires WellFormed(dt)
    ensures NewYear(dt.year) <= ToSeconds(dt) < NewYear(dt.year + 1)
  {
    var whole := dt.(microsecond := 0);
    FromSecondsToSeconds(whole);
    YearOfBounds(ToSeconds(whole));
  }

  /** Each year tick lies strictly after dt1 and strictly before dt2. */
  lemma NewYearsBetween(dt1: DateTime, dt2: DateTime, i: int)
    requires WellFormed(dt1) && WellFormed(dt2)
    requires 0 <= i < |NewYears(dt1.year + 1, dt2.year)|
    ensures ToSeconds(dt1) < NewYears(dt1.year + 1, dt2.year)[i] < ToSeconds(dt2)
  {
    var a, b := dt1.year + 1, dt2.year;
    var y := a + i;
    NewYearsLength(a, b);
    NewYearsAt(a, b, y);
    YearOfInstant(dt1);
    YearOfInstant(dt2);
    if a < y {
      NewYearIncreasing(a, y);
    }
    NewYearIncreasing(y, b);
  }

  /**
   * The year branch of tickValues (dashboardViewer.py): for each y in
   * range(dt1.year + 1, dt2.year), append mktime of January 1st of y.
   * The years stay within 1..9999 whenever dt1 and dt2 do, so building
   * the datetime never fails.
   */
  method YearTicks(dt1: DateTime, dt2: DateTime) returns (ticks: seq<int>)
    ensures ticks == NewYears(dt1.year + 1, dt2.year)
  {
    ticks := [];
    var y := dt1.year + 1;
    while y < dt2.year
      invariant dt1.year + 1 <= y
      invariant y <= dt2.year || y == dt1.year + 1
      invariant ticks == NewYears(dt1.year + 1, y)
      decreases dt2.year - y
    {
      var dt := DateTime(y, 1, 1, 0, 0, 0, 0);
      NewYearsSnoc(dt1.year + 1, y);
      ticks := ticks + [ToSeconds(dt)];
      y := y + 1;
    }
  }
}
