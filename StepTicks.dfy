/**
 * Candidate ticks of the day, hour, ten-minute, minute and ten-second
 * tiers: dt1 truncated to the tier's boundary, advanced one step, then
 * one step at a time while earlier than dt2.
 */
module StepTicks {

  import opened Wrappers
  import opened Calendar
  import opened Tiers
  import opened Sequences

  /** The tiers whose ticks are a fixed number of seconds apart. */
  predicate FixedStep(t: Tier) {
    t.Day? || t.Hour? || t.TenMinute? || t.Minute? || t.TenSecond?
  }

  /** The dt1.replace(...) of tier t: dt truncated to its day, hour, ten minutes, minute or ten seconds. */
  function Truncate(t: Tier, dt: DateTime): DateTime
    requires FixedStep(t)
  {
    match t
    case Day => dt.(hour := 0, minute := 0, second := 0, microsecond := 0)
    case Hour => dt.(minute := 0, second := 0, microsecond := 0)
    case TenMinute => dt.(minute := dt.minute / 10 * 10, second := 0, microsecond := 0)
    case Minute => dt.(second := 0, microsecond := 0)
    case TenSecond => dt.(second := dt.second / 10 * 10, microsecond := 0)
  }

  /** The round boundaries of tier t: the civil fields below the tier are zero (or a multiple of ten). */
  predicate Aligned(t: Tier, dt: DateTime)
    requires FixedStep(t)
  {
    match t
    case Day => dt.hour == 0 && dt.minute == 0 && dt.second == 0
    case Hour => dt.minute == 0 && dt.second == 0
    case TenMinute => dt.minute % 10 == 0 && dt.second == 0
    case Minute => dt.second == 0
    case TenSecond => dt.second % 10 == 0
  }

  lemma ClockOfSeconds(s: int)
    ensures FromSeconds(s).hour == s % 86400 / 3600
    ensures FromSeconds(s).minute == s % 86400 % 3600 / 60
    ensures FromSeconds(s).second == s % 86400 % 60
  {
  }

  /** Division by a tier's step, for a number given as whole steps plus a remainder. */
  lemma DivModStep(t: Tier, k: int, b: int)
    requires FixedStep(t) && 0 <= b < Step(t)
    ensures (Step(t) * k + b) % Step(t) == b
    ensures (Step(t) * k + b) / Step(t) == k
  {
    match t
    case Day =>
      assert Step(t) == 86400;
      assert (86400 * k + b) / 86400 == k;
    case Hour =>
      assert Step(t) == 3600;
      assert (3600 * k + b) / 3600 == k;
    case TenMinute =>
      assert Step(t) == 600;
      assert (600 * k + b) / 600 == k;
    case Minute =>
      assert Step(t) == 60;
      assert (60 * k + b) / 60 == k;
    case TenSecond =>
      assert Step(t) == 10;
      assert (10 * k + b) / 10 == k;
  }

  /** The remainders of s by each fixed step, in terms of the clock fields of s. */
  lemma ClockRemainders(s: int)
    ensures var r := s % 86400;
            var h, m, sec := r / 3600, r % 3600 / 60, r % 60;
            && r == 3600 * h + 60 * m + sec
            && s % 3600 == 60 * m + sec
            && s % 600 == 60 * (m % 10) + sec
            && s % 60 == sec
            && s % 10 == sec % 10
  {
    var q, r := s / 86400, s % 86400;
    var h, u := r / 3600, r % 3600;
    var m, sec := u / 60, u % 60;
    assert r % 60 == sec;
    var c, e := m / 10, m % 10;
    assert s == 3600 * (24 * q + h) + (60 * m + sec);
    DivModStep(Hour, 24 * q + h, 60 * m + sec);
    assert s == 600 * (144 * q + 6 * h + c) + (60 * e + sec);
    DivModStep(TenMinute, 144 * q + 6 * h + c, 60 * e + sec);
    assert s == 60 * (1440 * q + 60 * h + m) + sec;
    DivModStep(Minute, 1440 * q + 60 * h + m, sec);
    assert s == 10 * (8640 * q + 360 * h + 6 * m + sec / 10) + sec % 10;
    DivModStep(TenSecond, 8640 * q + 360 * h + 6 * m + sec / 10, sec % 10);
  }

  /** An instant is on a boundary of tier t exactly when it is a multiple of the tier's step. */
  lemma AlignedIffMultiple(t: Tier, s: int)
    requires FixedStep(t)
    ensures Aligned(t, FromSeconds(s)) <==> s % Step(t) == 0
  {
    ClockOfSeconds(s);
    ClockRemainders(s);
  }

  /** Truncation lands on the tier's last boundary at or before dt, less than one step earlier. */
  lemma TruncateFacts(t: Tier, dt: DateTime)
    requires FixedStep(t) && WellFormed(dt)
    ensures var b := Truncate(t, dt);
            && WellFormed(b) && b.microsecond == 0 && b.year == dt.year
            && Aligned(t, b)
            && ToSeconds(dt) - Step(t) < ToSeconds(b) <= ToSeconds(dt)
            && ToSeconds(b) % Step(t) == 0
  {
    var b := Truncate(t, dt);
    var d := DaysFromCivil(DateOf(dt));
    assert DaysFromCivil(DateOf(b)) == d;
    assert ToSeconds(dt) == 86400 * d + 3600 * dt.hour + 60 * dt.minute + dt.second;
    match t
    case Day =>
      assert ToSeconds(b) == 86400 * d;
      DivModStep(t, d, 0);
    case Hour =>
      assert ToSeconds(b) == 3600 * (24 * d + dt.hour);
      DivModStep(t, 24 * d + dt.hour, 0);
    case TenMinute =>
      assert ToSeconds(b) == 600 * (144 * d + 6 * dt.hour + dt.minute / 10);
      DivModStep(t, 144 * d + 6 * dt.hour + dt.minute / 10, 0);
    case Minute =>
      assert ToSeconds(b) == 60 * (1440 * d + 60 * dt.hour + dt.minute);
      DivModStep(t, 1440 * d + 60 * dt.hour + dt.minute, 0);
    case TenSecond =>
      assert ToSeconds(b) == 10 * (8640 * d + 360 * dt.hour + 6 * dt.minute + dt.second / 10);
      DivModStep(t, 8640 * d + 360 * dt.hour + 6 * dt.minute + dt.second / 10, 0);
  }

  /** Two multiples of a tier's step, b < s: s lies a whole number of steps after b + step. */
  lemma StepsBetween(t: Tier, b: int, s: int) returns (i: nat)
    requires FixedStep(t) && b % Step(t) == 0 && s % Step(t) == 0 && b < s
    ensures s == b + Step(t) + i * Step(t)
  {
    match t
    case Day =>
      assert Step(t) == 86400;
      i := s / 86400 - b / 86400 - 1;
      assert s == b + 86400 + i * 86400;
    case Hour =>
      assert Step(t) == 3600;
      i := s / 3600 - b / 3600 - 1;
      assert s == b + 3600 + i * 3600;
    case TenMinute =>
      assert Step(t) == 600;
      i := s / 600 - b / 600 - 1;
      assert s == b + 600 + i * 600;
    case Minute =>
      assert Step(t) == 60;
      i := s / 60 - b / 60 - 1;
      assert s == b + 60 + i * 60;
    case TenSecond =>
      assert Step(t) == 10;
      i := s / 10 - b / 10 - 1;
      assert s == b + 10 + i * 10;
  }

  /** Whole steps after a multiple of the step are multiples of the step. */
  lemma StepsKeepMultiple(t: Tier, b: int, i: int)
    requires FixedStep(t) && b % Step(t) == 0
    ensures (b + Step(t) + i * Step(t)) % Step(t) == 0
  {
    match t
    case Day =>
      assert Step(t) == 86400;
      assert b == 86400 * (b / 86400);
      assert b + 86400 + i * 86400 == 86400 * (b / 86400 + 1 + i);
      DivModStep(t, b / 86400 + 1 + i, 0);
    case Hour =>
      assert Step(t) == 3600;
      assert b == 3600 * (b / 3600);
      assert b + 3600 + i * 3600 == 3600 * (b / 3600 + 1 + i);
      DivModStep(t, b / 3600 + 1 + i, 0);
    case TenMinute =>
      assert Step(t) == 600;
      assert b == 600 * (b / 600);
      assert b + 600 + i * 600 == 600 * (b / 600 + 1 + i);
      DivModStep(t, b / 600 + 1 + i, 0);
    case Minute =>
      assert Step(t) == 60;
      assert b == 60 * (b / 60);
      assert b + 60 + i * 60 == 60 * (b / 60 + 1 + i);
      DivModStep(t, b / 60 + 1 + i, 0);
    case TenSecond =>
      assert Step(t) == 10;
      assert b == 10 * (b / 10);
      assert b + 10 + i * 10 == 10 * (b / 10 + 1 + i);
      DivModStep(t, b / 10 + 1 + i, 0);
  }

  /** The instants s, s + step, s + 2 * step, ... that are below lim. */
  function Walk(s: int, step: nat, lim: int): seq<int>
    requires step > 0
    decreases lim - s
  {
    if s < lim then [s] + Walk(s + step, step, lim) else []
  }

  /**
   * Where a walk stops: the first of s, s + step, ... that is not below lim,
   * which is s itself when s is not below lim, and less than one step past lim otherwise.
   */
  function WalkEnd(s: int, step: nat, lim: int): (e: int)
    requires step > 0
    ensures s <= e && lim <= e
    ensures s < lim ==> e < lim + step
    ensures s >= lim ==> e == s
    decreases lim - s
  {
    if s < lim then WalkEnd(s + step, step, lim) else s
  }

  /** One step of a walk: the instants already produced, then the rest of the walk. */
  lemma WalkUnfold(ticks: seq<int>, s: int, step: nat, lim: int)
    requires step > 0 && s < lim
    ensures ticks + Walk(s, step, lim) == (ticks + [s]) + Walk(s + step, step, lim)
    ensures WalkEnd(s, step, lim) == WalkEnd(s + step, step, lim)
  {
  }

  /** The i-th instant of a walk is i steps after its start, and below the limit. */
  lemma {:induction false} WalkAt(s: int, step: nat, lim: int, i: nat)
    requires step > 0 && i < |Walk(s, step, lim)|
    ensures Walk(s, step, lim)[i] == s + i * step < lim
    decreases lim - s
  {
    if i > 0 {
      WalkAt(s + step, step, lim, i - 1);
      assert (i - 1) * step + step == i * step;
    }
  }

  /** Every instant a whole number of steps after the start and below the limit is in the walk. */
  lemma {:induction false} WalkHas(s: int, step: nat, lim: int, i: nat)
    requires step > 0 && s + i * step < lim
    ensures i < |Walk(s, step, lim)| && Walk(s, step, lim)[i] == s + i * step
    decreases i
  {
    if i > 0 {
      assert (s + step) + (i - 1) * step == s + i * step;
      WalkHas(s + step, step, lim, i - 1);
    }
  }

  /** A walk is increasing, and each instant is one step after the one before. */
  lemma {:induction false} WalkIncreasing(s: int, step: nat, lim: int)
    requires step > 0
    ensures Increasing(Walk(s, step, lim))
    ensures forall i :: 0 <= i < |Walk(s, step, lim)| - 1 ==> Walk(s, step, lim)[i + 1] == Walk(s, step, lim)[i] + step
    decreases lim - s
  {
    if s < lim {
      WalkIncreasing(s + step, step, lim);
      var w := Walk(s + step, step, lim);
      if s + step < lim {
        assert w[0] == s + step;
      }
      PrependIncreasing(s, w);
      assert forall i :: 1 <= i < |w| + 1 ==> ([s] + w)[i] == w[i - 1];
    }
  }

  /**
   * Walking from one step after b, a multiple of the step at most one step
   * below x, meets exactly the multiples of the step above x and below lim.
   */
  lemma WalkOfMultiples(t: Tier, b: int, x: int, lim: int, s: int)
    requires FixedStep(t) && b % Step(t) == 0 && x - Step(t) < b <= x
    ensures s in Walk(b + Step(t), Step(t), lim) <==> s % Step(t) == 0 && x < s < lim
  {
    var step := Step(t);
    var ticks := Walk(b + step, step, lim);
    if s in ticks {
      var i :| 0 <= i < |ticks| && ticks[i] == s;
      WalkAt(b + step, step, lim, i);
      StepsKeepMultiple(t, b, i);
    }
    if s % step == 0 && x < s < lim {
      var i := StepsBetween(t, b, s);
      WalkHas(b + step, step, lim, i);
    }
  }

  /** The first candidate of tier t: dt1 truncated to the tier's boundary, plus one step. */
  function FirstTick(t: Tier, dt1: DateTime): int
    requires FixedStep(t) && WellFormed(dt1)
  {
    ToSeconds(Truncate(t, dt1)) + Step(t)
  }

  /** The instants the loop of tier t visits below dt2 (rounded up to whole seconds). */
  function StepWalk(t: Tier, dt1: DateTime, dt2: DateTime): seq<int>
    requires FixedStep(t) && WellFormed(dt1) && WellFormed(dt2)
  {
    Walk(FirstTick(t, dt1), Step(t), CeilSeconds(dt2))
  }

  /**
   * What stepping from s by step while below lim produces: the instants
   * visited, or the OverflowError raised when a step leaves year 9999
   * before the walk reaches lim.
   */
  function WalkResult(s: int, step: nat, lim: int): Result<seq<int>, Error>
    requires step > 0
  {
    if InRange(WalkEnd(s, step, lim)) then Ok(Walk(s, step, lim)) else Err(OverflowError)
  }

  /** A walk that starts past the end of year 9999 overflows at once. */
  lemma WalkResultPastEnd(s: int, step: nat, lim: int)
    requires step > 0 && StartOfTime <= s && !InRange(s)
    ensures WalkResult(s, step, lim) == Err(OverflowError)
  {
  }

  /** What the loop of tier t produces for dt1 and dt2. */
  function StepCandidates(t: Tier, dt1: DateTime, dt2: DateTime): Result<seq<int>, Error>
    requires FixedStep(t) && WellFormed(dt1) && WellFormed(dt2)
  {
    WalkResult(FirstTick(t, dt1), Step(t), CeilSeconds(dt2))
  }

  /** The candidates of tier t are exactly the multiples of its step after dt1 and before dt2. */
  lemma StepWalkIff(t: Tier, dt1: DateTime, dt2: DateTime, s: int)
    requires FixedStep(t) && WellFormed(dt1) && WellFormed(dt2)
    ensures s in StepWalk(t, dt1, dt2) <==> s % Step(t) == 0 && ToSeconds(dt1) < s < CeilSeconds(dt2)
  {
    TruncateFacts(t, dt1);
    WalkOfMultiples(t, ToSeconds(Truncate(t, dt1)), ToSeconds(dt1), CeilSeconds(dt2), s);
  }

  /**
   * The ticks of tier t are exactly the tier's round boundaries (midnights,
   * whole hours, ...) strictly after dt1 and earlier than dt2.
   */
  lemma StepTickIff(t: Tier, dt1: DateTime, dt2: DateTime, s: int)
    requires FixedStep(t) && WellFormed(dt1) && WellFormed(dt2)
    ensures s in StepWalk(t, dt1, dt2) <==> Aligned(t, FromSeconds(s)) && ToSeconds(dt1) < s < CeilSeconds(dt2)
  {
    StepWalkIff(t, dt1, dt2, s);
    AlignedIffMultiple(t, s);
  }

  /** The ticks of tier t come in increasing order, one step apart. */
  lemma StepWalkIncreasing(t: Tier, dt1: DateTime, dt2: DateTime)
    requires FixedStep(t) && WellFormed(dt1) && WellFormed(dt2)
    ensures var w := StepWalk(t, dt1, dt2);
            && Increasing(w)
            && forall i :: 0 <= i < |w| - 1 ==> w[i + 1] == w[i] + Step(t)
  {
    WalkIncreasing(FirstTick(t, dt1), Step(t), CeilSeconds(dt2));
  }

  /**
   * The loop shared by the fixed-step tiers: while dt < dt2, append
   * mktime(dt) and add the step.
   */
  method WalkFrom(start: DateTime, d: nat, dt2: DateTime) returns (r: Result<seq<int>, Error>)
    requires d > 0 && WellFormed(start) && start.microsecond == 0 && InRange(ToSeconds(start))
    requires WellFormed(dt2)
    ensures r == WalkResult(ToSeconds(start), d, CeilSeconds(dt2))
  {
    ghost var lim := CeilSeconds(dt2);
    ghost var all := Walk(ToSeconds(start), d, lim);
    ghost var end := WalkEnd(ToSeconds(start), d, lim);
    var dt := start;
    ghost var s := ToSeconds(start);
    var ticks := [];
    while Before(dt, dt2)
      invariant WellFormed(dt) && dt.microsecond == 0 && s == ToSeconds(dt) && InRange(s)
      invariant ticks + Walk(s, d, lim) == all
      invariant WalkEnd(s, d, lim) == end
      decreases lim - s
    {
      BeforeIffBelowCeil(dt, dt2);
      WalkUnfold(ticks, s, d, lim);
      ticks := ticks + [ToSeconds(dt)];
      var next := Add(dt, d);
      if next.Err? {
        return Err(next.error);
      }
      dt := next.value;
      s := s + d;
    }
    BeforeIffBelowCeil(dt, dt2);
    assert Walk(s, d, lim) == [];
    assert ticks + [] == ticks;
    return Ok(ticks);
  }

  /** The loop of tier t walks from its first tick. */
  lemma StepCandidatesFrom(t: Tier, dt1: DateTime, dt2: DateTime, first: int)
    requires FixedStep(t) && WellFormed(dt1) && WellFormed(dt2) && first == FirstTick(t, dt1)
    ensures StepCandidates(t, dt1, dt2) == WalkResult(first, Step(t), CeilSeconds(dt2))
  {
  }

  /**
   * The loop of tier t (dashboardViewer.py, the day, hour, ten-minute,
   * minute and ten-second branches): truncate dt1, add the step, and while
   * dt < dt2 append mktime(dt) and add the step again.
   */
  method StepTicks(t: Tier, dt1: DateTime, dt2: DateTime) returns (r: Result<seq<int>, Error>)
    requires FixedStep(t) && WellFormed(dt1) && WellFormed(dt2)
    requires InRange(ToSeconds(dt1))
    ensures r == StepCandidates(t, dt1, dt2)
  {
    var d := Step(t);
    var base := Truncate(t, dt1);
    TruncateFacts(t, dt1);
    ghost var first := ToSeconds(base) + d;
    StepCandidatesFrom(t, dt1, dt2, first);
    var next := Add(base, d);
    if next.Err? {
      WalkResultPastEnd(first, d, CeilSeconds(dt2));
      return Err(next.error);
    }
    r := WalkFrom(next.value, d, dt2);
  }
}
