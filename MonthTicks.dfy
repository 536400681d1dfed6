/**
 * Candidate ticks of the month tier: from the start of dt1's month, add 31
 * days; while that is earlier than dt2, reset the day to 1, take the
 * timestamp, and add 31 days again.
 */
module MonthTicks {

  import opened Wrappers
  import opened Calendar
  import opened Sequences

  /** The instant the loop compares with dt2 before it appends month k: 31 days after the first of month k - 1. */
  function Probe(k: int): int {
    FirstOfMonth(k - 1) + 31 * 86400
  }

  /**
   * The probe of month k is on day 1 to 4 of month k (a month has 28 to 31
   * days), and probes grow by at least 28 days from month to month.
   */
  lemma ProbeBounds(k: int)
    ensures FirstOfMonth(k) <= Probe(k) <= FirstOfMonth(k) + 3 * 86400
    ensures Probe(k) + 28 * 86400 <= Probe(k + 1)
  {
    FirstOfMonthStep(k - 1);
    FirstOfMonthNext(k);
    assert k - 1 + 1 == k;
  }

  /** A datetime lies in its own month: not before the month's first midnight, before the next one. */
  lemma MonthOfInstant(dt: DateTime)
    requires WellFormed(dt)
    ensures FirstOfMonth(MonthIndex(dt)) <= ToSeconds(dt) < FirstOfMonth(MonthIndex(dt) + 1)
  {
    var k := MonthIndex(dt);
    MonthStartOfIndex(dt);
    FirstOfMonthStep(k);
    assert k / 12 == dt.year && k % 12 + 1 == dt.month;
    assert DaysFromCivil(DateOf(dt)) == DaysFromCivil(DateOf(MonthStart(k))) + dt.day - 1;
  }

  /** The probe of month k + 1 is 31 days after the first of month k. */
  lemma ProbeOfNext(k: int)
    ensures Probe(k + 1) == FirstOfMonth(k) + 31 * 86400
  {
    assert k + 1 - 1 == k;
  }

  /**
   * Thirty-one days after the first of month k, read back as a datetime,
   * is a date of month k + 1 whose day reset to 1 is the first of that month.
   */
  lemma NextProbe(k: int, dt: DateTime)
    requires WellFormed(dt) && dt.microsecond == 0 && ToSeconds(dt) == FirstOfMonth(k) + 31 * 86400
    ensures dt.(day := 1) == MonthStart(k + 1)
  {
    FromSecondsToSeconds(dt);
    ThirtyOneDaysLater(k, ToSeconds(dt));
  }

  /** p increases strictly: a larger index has a larger value. */
  ghost predicate Ascending(p: int -> int) {
    forall i, j :: i < j ==> p(i) < p(j)
  }

  /** Values that grow from index to index grow overall. */
  lemma {:induction false} StepsAscend(p: int -> int, a: int, b: int)
    requires a < b
    requires forall i :: a <= i < b ==> p(i) < p(i + 1)
    ensures p(a) < p(b)
    decreases b - a
  {
    if a + 1 < b {
      StepsAscend(p, a + 1, b);
    }
  }

  /**
   * The values v(k), v(k + 1), ... for as long as the probe p of the index
   * is below lim: the loop shape "while probe < lim: append value; advance".
   */
  function ProbeWalk(p: int -> int, v: int -> int, k: int, lim: int): seq<int>
    requires Ascending(p)
    decreases lim - p(k)
  {
    if p(k) < lim then [v(k)] + ProbeWalk(p, v, k + 1, lim) else []
  }

  /** The first index at or after k whose probe is not below lim: where the walk stops. */
  function ProbeWalkEnd(p: int -> int, k: int, lim: int): (e: int)
    requires Ascending(p)
    ensures k <= e && lim <= p(e)
    decreases lim - p(k)
  {
    if p(k) < lim then ProbeWalkEnd(p, k + 1, lim) else k
  }

  /** The walk holds one value per index from k up to its end. */
  lemma {:induction false} ProbeWalkLength(p: int -> int, v: int -> int, k: int, lim: int)
    requires Ascending(p)
    ensures ProbeWalkEnd(p, k, lim) == k + |ProbeWalk(p, v, k, lim)|
    decreases lim - p(k)
  {
    if p(k) < lim {
      ProbeWalkLength(p, v, k + 1, lim);
    }
  }

  /** The value at index j of a probe walk is v(j), and its probe is below the limit. */
  lemma {:induction false} ProbeWalkAt(p: int -> int, v: int -> int, k: int, lim: int, j: int)
    requires Ascending(p) && k <= j < k + |ProbeWalk(p, v, k, lim)|
    ensures ProbeWalk(p, v, k, lim)[j - k] == v(j) && p(j) < lim
    decreases j - k
  {
    if k < j {
      ProbeWalkAt(p, v, k + 1, lim, j);
    }
  }

  /** Every index from k on whose probe is below the limit is reached by the walk. */
  lemma {:induction false} ProbeWalkReaches(p: int -> int, v: int -> int, k: int, lim: int, j: int)
    requires Ascending(p) && k <= j && p(j) < lim
    ensures j < k + |ProbeWalk(p, v, k, lim)|
    decreases j - k
  {
    if k < j {
      ProbeWalkReaches(p, v, k + 1, lim, j);
    }
  }

  /** A probe walk of ascending values is increasing. */
  lemma {:induction false} ProbeWalkIncreasing(p: int -> int, v: int -> int, k: int, lim: int)
    requires Ascending(p) && Ascending(v)
    ensures Increasing(ProbeWalk(p, v, k, lim))
    decreases lim - p(k)
  {
    if p(k) < lim {
      var rest := ProbeWalk(p, v, k + 1, lim);
      ProbeWalkIncreasing(p, v, k + 1, lim);
      if |rest| > 0 {
        ProbeWalkAt(p, v, k + 1, lim, k + 1);
      }
      PrependIncreasing(v(k), rest);
    }
  }

  /** One step of a probe walk: the values already produced, then the rest of the walk. */
  lemma ProbeWalkUnfold(ticks: seq<int>, p: int -> int, v: int -> int, k: int, lim: int)
    requires Ascending(p) && p(k) < lim
    ensures ticks + ProbeWalk(p, v, k, lim) == (ticks + [v(k)]) + ProbeWalk(p, v, k + 1, lim)
    ensures ProbeWalkEnd(p, k, lim) == ProbeWalkEnd(p, k + 1, lim)
  {
  }

  /** The probes of later months are later. */
  lemma ProbesAscend()
    ensures Ascending(Probe)
  {
    forall i, j | i < j
      ensures Probe(i) < Probe(j)
    {
      forall m | i <= m < j
        ensures Probe(m) < Probe(m + 1)
      {
        ProbeBounds(m);
      }
      StepsAscend(Probe, i, j);
    }
  }

  /** Later months start later. */
  lemma FirstsAscend()
    ensures Ascending(FirstOfMonth)
  {
    forall i, j | i < j
      ensures FirstOfMonth(i) < FirstOfMonth(j)
    {
      forall m | i <= m < j
        ensures FirstOfMonth(m) < FirstOfMonth(m + 1)
      {
        FirstOfMonthNext(m);
      }
      StepsAscend(FirstOfMonth, i, j);
    }
  }

  /** The firsts of month k, k + 1, ... whose probes are below lim. */
  function MonthWalk(k: int, lim: int): seq<int> {
    ProbesAscend();
    ProbeWalk(Probe, FirstOfMonth, k, lim)
  }

  /** The month whose probe stops the walk from month k. */
  function MonthWalkEnd(k: int, lim: int): int {
    ProbesAscend();
    ProbeWalkEnd(Probe, k, lim)
  }

  /**
   * What the month loop produces when its first probe is month k: the month
   * starts it appends, or the OverflowError raised when adding 31 days
   * leaves year 9999 before a probe reaches lim.
   */
  function MonthResult(k: int, lim: int): Result<seq<int>, Error> {
    if InRange(Probe(MonthWalkEnd(k, lim))) then Ok(MonthWalk(k, lim)) else Err(OverflowError)
  }

  /** A month walk whose first probe lies past the end of year 9999 overflows at once. */
  lemma MonthResultPastEnd(k: int, lim: int)
    requires StartOfTime <= Probe(k) && !InRange(Probe(k))
    ensures MonthResult(k, lim) == Err(OverflowError)
  {
    ProbesAscend();
    var e := MonthWalkEnd(k, lim);
    if k < e {
      assert Probe(k) < Probe(e);
    }
  }

  /** What the loop of the month tier produces for dt1 and dt2. */
  function MonthCandidates(dt1: DateTime, dt2: DateTime): Result<seq<int>, Error>
    requires WellFormed(dt1) && WellFormed(dt2)
  {
    MonthResult(MonthIndex(dt1) + 1, CeilSeconds(dt2))
  }

  /**
   * The month ticks are the firsts of consecutive months from month k on:
   * month j is the (j - k)-th tick exactly when it comes before the first
   * month whose probe (day 1 to 4 of that month) is not below lim.
   */
  lemma MonthWalkAt(k: int, lim: int, j: int)
    requires k <= j
    ensures var ticks := MonthWalk(k, lim);
            && (j - k < |ticks| ==> ticks[j - k] == FirstOfMonth(j) && Probe(j) < lim)
            && (j - k == |ticks| ==> lim <= Probe(j))
  {
    ProbesAscend();
    ProbeWalkLength(Probe, FirstOfMonth, k, lim);
    if j - k < |MonthWalk(k, lim)| {
      ProbeWalkAt(Probe, FirstOfMonth, k, lim, j);
    } else if j - k == |MonthWalk(k, lim)| {
      assert ProbeWalkEnd(Probe, k, lim) == j;
    }
  }

  /** Each month tick is midnight on the first day of its month. */
  lemma MonthTickIsMonthStart(k: int)
    ensures FromSeconds(FirstOfMonth(k)) == MonthStart(k)
  {
    FromSecondsToSeconds(MonthStart(k));
  }

  /** The tick of month j, read back as a datetime, is midnight on the first of month j. */
  lemma MonthTickAt(k: int, lim: int, j: int)
    requires k <= j < k + |MonthWalk(k, lim)|
    ensures FromSeconds(MonthWalk(k, lim)[j - k]) == MonthStart(j)
  {
    MonthWalkAt(k, lim, j);
    MonthTickIsMonthStart(j);
  }

  /** The month ticks increase. */
  lemma MonthWalkIncreasing(k: int, lim: int)
    ensures Increasing(MonthWalk(k, lim))
  {
    ProbesAscend();
    FirstsAscend();
    ProbeWalkIncreasing(Probe, FirstOfMonth, k, lim);
  }

  /** The tick of month j in the walk from month k is no earlier than the first of month k and is below lim. */
  lemma MonthTickBounds(k: int, lim: int, j: int)
    requires k <= j < k + |MonthWalk(k, lim)|
    ensures FirstOfMonth(k) <= MonthWalk(k, lim)[j - k] < lim
  {
    ProbesAscend();
    FirstsAscend();
    ProbeWalkAt(Probe, FirstOfMonth, k, lim, j);
    ProbeBounds(j);
  }

  /**
   * A month start from month k on that lies more than three days before lim
   * is always a tick; only a month start at most three days before lim can be
   * left out.
   */
  lemma MonthStartKept(k: int, lim: int, j: int)
    requires k <= j && FirstOfMonth(j) + 3 * 86400 < lim
    ensures FirstOfMonth(j) in MonthWalk(k, lim)
  {
    ProbeBounds(j);
    ProbesAscend();
    ProbeWalkReaches(Probe, FirstOfMonth, k, lim, j);
    ProbeWalkAt(Probe, FirstOfMonth, k, lim, j);
  }

  /**
   * The month where the walk stops is not a tick, yet it starts at most
   * three days before lim: it is dropped because its probe, not its first
   * day, is compared with lim.
   */
  lemma MonthAfterLastTick(k: int, lim: int)
    ensures var e := MonthWalkEnd(k, lim);
            && FirstOfMonth(e) !in MonthWalk(k, lim)
            && lim <= FirstOfMonth(e) + 3 * 86400
  {
    var e := MonthWalkEnd(k, lim);
    ProbeBounds(e);
    ProbesAscend();
    FirstsAscend();
    ProbeWalkLength(Probe, FirstOfMonth, k, lim);
    var ticks := MonthWalk(k, lim);
    if FirstOfMonth(e) in ticks {
      var i :| 0 <= i < |ticks| && ticks[i] == FirstOfMonth(e);
      ProbeWalkAt(Probe, FirstOfMonth, k, lim, k + i);
      assert false;
    }
  }

  /** Every month tick lies strictly after dt1 and strictly before dt2. */
  lemma MonthTicksBetween(dt1: DateTime, dt2: DateTime, i: int)
    requires WellFormed(dt1) && WellFormed(dt2)
    requires 0 <= i < |MonthWalk(MonthIndex(dt1) + 1, CeilSeconds(dt2))|
    ensures ToSeconds(dt1) < MonthWalk(MonthIndex(dt1) + 1, CeilSeconds(dt2))[i] < CeilSeconds(dt2)
  {
    var k := MonthIndex(dt1) + 1;
    MonthOfInstant(dt1);
    MonthTickBounds(k, CeilSeconds(dt2), k + i);
  }

  /**
   * The state of the month loop at its test for month k: dt is the probe of
   * month k, a date on day 1 to 4 of that month at midnight.
   */
  predicate AtProbe(dt: DateTime, k: int) {
    && WellFormed(dt) && dt.microsecond == 0
    && ToSeconds(dt) == Probe(k) && InRange(Probe(k))
    && dt.(day := 1) == MonthStart(k)
  }

  /**
   * The body of the month loop: dt = dt.replace(day=1), take mktime(dt),
   * then dt += timedelta(days=31), which reaches the probe of the next month
   * or raises OverflowError.
   */
  method MonthStep(dt: DateTime, ghost k: int) returns (tick: int, next: Result<DateTime, Error>)
    requires AtProbe(dt, k)
    ensures tick == FirstOfMonth(k)
    ensures next.Ok? ==> AtProbe(next.value, k + 1)
    ensures next.Err? <==> !InRange(Probe(k + 1))
    ensures next.Err? ==> next.error == OverflowError
  {
    var start := dt.(day := 1);
    tick := ToSeconds(start);
    next := Add(start, 31 * 86400);
    ProbeOfNext(k);
    if next.Ok? {
      NextProbe(k, next.value);
    }
  }

  /**
   * The loop of the month tier (dashboardViewer.py, the month branch), from
   * its first probe on: while dt < dt2, reset the day to 1, append
   * mktime(dt) and add 31 days.
   */
  method MonthsFrom(start: DateTime, ghost k0: int, dt2: DateTime) returns (r: Result<seq<int>, Error>)
    requires AtProbe(start, k0) && WellFormed(dt2)
    ensures r == MonthResult(k0, CeilSeconds(dt2))
  {
    ghost var lim := CeilSeconds(dt2);
    ghost var all := MonthWalk(k0, lim);
    ghost var end := MonthWalkEnd(k0, lim);
    ProbesAscend();
    var dt := start;
    ghost var k := k0;
    var ticks := [];
    while Before(dt, dt2)
      invariant AtProbe(dt, k)
      invariant ticks + MonthWalk(k, lim) == all
      invariant MonthWalkEnd(k, lim) == end
      decreases lim - Probe(k)
    {
      BeforeIffBelowCeil(dt, dt2);
      ProbeWalkUnfold(ticks, Probe, FirstOfMonth, k, lim);
      ProbeBounds(k);
      var tick, next := MonthStep(dt, k);
      ticks := ticks + [tick];
      if next.Err? {
        MonthResultPastEnd(k + 1, lim);
        return Err(next.error);
      }
      dt := next.value;
      k := k + 1;
    }
    BeforeIffBelowCeil(dt, dt2);
    assert MonthWalk(k, lim) == [];
    assert ticks + [] == ticks;
    return Ok(ticks);
  }

  /**
   * dt1.replace(day=1, hour=0, minute=0, second=0, microsecond=0) is the
   * first of some month k, and 31 days later is the probe of month k + 1,
   * which lies after dt1.
   */
  lemma FirstProbe(dt1: DateTime) returns (k: int)
    requires WellFormed(dt1)
    ensures var base := dt1.(day := 1, hour := 0, minute := 0, second := 0, microsecond := 0);
            && base == MonthStart(k) && WellFormed(base)
            && ToSeconds(base) + 31 * 86400 == Probe(k + 1)
            && ToSeconds(dt1) < Probe(k + 1)
            && k == MonthIndex(dt1)
  {
    k := MonthIndex(dt1);
    MonthStartOfIndex(dt1);
    MonthOfInstant(dt1);
    ProbeBounds(k + 1);
    ProbeOfNext(k);
  }

  /** The month branch starts its walk at the month after the one holding dt1. */
  lemma MonthCandidatesFrom(dt1: DateTime, dt2: DateTime, k1: int)
    requires WellFormed(dt1) && WellFormed(dt2) && k1 == MonthIndex(dt1) + 1
    ensures MonthCandidates(dt1, dt2) == MonthResult(k1, CeilSeconds(dt2))
  {
  }

  /**
   * The first probe of the month loop: dt1 truncated to the first of its
   * month at midnight, plus 31 days; OverflowError when that leaves year
   * 9999, and then the whole month branch fails with it.
   */
  method FirstMonthProbe(dt1: DateTime, dt2: DateTime) returns (next: Result<DateTime, Error>, ghost k1: int)
    requires WellFormed(dt1) && WellFormed(dt2) && InRange(ToSeconds(dt1))
    ensures k1 == MonthIndex(dt1) + 1
    ensures MonthCandidates(dt1, dt2) == MonthResult(k1, CeilSeconds(dt2))
    ensures next.Ok? ==> AtProbe(next.value, k1)
    ensures next.Err? <==> !InRange(Probe(k1))
    ensures next.Err? ==> next.error == OverflowError && MonthResult(k1, CeilSeconds(dt2)) == Err(OverflowError)
  {
    var base := dt1.(day := 1, hour := 0, minute := 0, second := 0, microsecond := 0);
    ghost var k := FirstProbe(dt1);
    k1 := k + 1;
    MonthCandidatesFrom(dt1, dt2, k1);
    next := Add(base, 31 * 86400);
    if next.Ok? {
      ProbeOfNext(k);
      NextProbe(k, next.value);
    } else {
      MonthResultPastEnd(k1, CeilSeconds(dt2));
    }
  }

  /**
   * The month branch of tickValues (dashboardViewer.py): the first probe,
   * then the loop.
   */
  method MonthTicks(dt1: DateTime, dt2: DateTime) returns (r: Result<seq<int>, Error>)
    requires WellFormed(dt1) && WellFormed(dt2) && InRange(ToSeconds(dt1))
    ensures r == MonthCandidates(dt1, dt2)
  {
    var next, k1 := FirstMonthProbe(dt1, dt2);
    if next.Err? {
      return Err(next.error);
    }
    r := MonthsFrom(next.value, k1, dt2);
  }
}
