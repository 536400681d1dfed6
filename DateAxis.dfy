/**
 * DateAxisItem.tickValues: pick the granularity tier from the visible span,
 * generate the tier's calendar-aligned candidates, thin them to what fits
 * the axis, and return them as one level with the tier's spacing.
 */
module DateAxis {

  import opened Wrappers
  import opened Numbers
  import opened Calendar
  import opened Tiers
  import opened Sequences
  import opened StepTicks
  import opened MonthTicks
  import opened YearTicks
  import opened SecondTicks
  import opened Decimation

  /** _pxLabelWidth: the pixels reserved for each label on the axis. */
  const LabelWidth: real := 80.0

  /** One (spacing, ticks) pair of the list tickValues returns. */
  datatype Level = Level(spacing: real, ticks: seq<real>)

  /** maxMajSteps = int(size / _pxLabelWidth): how many labels fit the axis. */
  function MaxMajSteps(size: real): int {
    Trunc(size / LabelWidth)
  }

  /** The tick positions as the floats Python returns. */
  function AsReals(s: seq<int>): seq<real> {
    seq(|s|, i requires 0 <= i < |s| => s[i] as real)
  }

  /** The candidates of tier t, before thinning, for dt1 = fromtimestamp(minVal) and dt2 = fromtimestamp(maxVal). */
  function Candidates(t: Tier, minVal: real, maxVal: real, dt1: DateTime, dt2: DateTime): Result<seq<int>, Error>
    requires t != SubSecond && WellFormed(dt1) && WellFormed(dt2)
  {
    match t
    case Year => Ok(NewYears(dt1.year + 1, dt2.year))
    case Month => MonthCandidates(dt1, dt2)
    case Day => StepCandidates(t, dt1, dt2)
    case Hour => StepCandidates(t, dt1, dt2)
    case TenMinute => StepCandidates(t, dt1, dt2)
    case Minute => StepCandidates(t, dt1, dt2)
    case TenSecond => StepCandidates(t, dt1, dt2)
    case Second => Ok(SecondCandidates(minVal, maxVal))
  }

  /** The candidates of the tier that the span maxVal - minVal selects. */
  function TierCandidates(minVal: real, maxVal: real): Result<seq<int>, Error>
    requires Representable(minVal) && Representable(maxVal)
    requires TierOf(maxVal - minVal) != SubSecond
  {
    Candidates(TierOf(maxVal - minVal), minVal, maxVal, FromTimestamp(minVal).value, FromTimestamp(maxVal).value)
  }

  /** The ticks that survive thinning, for a span above two seconds. */
  function MajorTicks(minVal: real, maxVal: real, size: real): Result<seq<int>, Error>
    requires Representable(minVal) && Representable(maxVal)
    requires TierOf(maxVal - minVal) != SubSecond
  {
    match TierCandidates(minVal, maxVal)
    case Err(e) => Err(e)
    case Ok(c) => Decimate(c, MaxMajSteps(size))
  }

  /**
   * tickValues(minVal, maxVal, size) with the parent class's tickValues as
   * parent: ValueError when either end is outside years 1..9999; the
   * parent's levels for a span of two seconds or less; otherwise one level
   * with the tier's step as spacing and the thinned candidates as ticks.
   */
  function TickValuesSpec(parent: (real, real, real) -> seq<Level>, minVal: real, maxVal: real, size: real)
    : Result<seq<Level>, Error>
  {
    if !Representable(minVal) || !Representable(maxVal) then Err(ValueError)
    else
      var t := TierOf(maxVal - minVal);
      if t == SubSecond then Ok(parent(minVal, maxVal, size))
      else
        match MajorTicks(minVal, maxVal, size)
        case Err(e) => Err(e)
        case Ok(ticks) => Ok([Level(Step(t) as real, AsReals(ticks))])
  }

  /** The round boundaries of tier t: new years, firsts of months, midnights, whole hours, ... */
  predicate OnBoundary(t: Tier, s: int) {
    var dt := FromSeconds(s);
    match t
    case Year => dt.month == 1 && dt.day == 1 && dt.hour == 0 && dt.minute == 0 && dt.second == 0
    case Month => dt.day == 1 && dt.hour == 0 && dt.minute == 0 && dt.second == 0
    case Day => Aligned(t, dt)
    case Hour => Aligned(t, dt)
    case TenMinute => Aligned(t, dt)
    case Minute => Aligned(t, dt)
    case TenSecond => Aligned(t, dt)
    case Second => true
    case SubSecond => true
  }

  /** What the tiers promise of each candidate: on a boundary, after minVal (minVal - 1 for seconds), before maxVal. */
  predicate GoodTick(t: Tier, minVal: real, maxVal: real, x: int) {
    && OnBoundary(t, x)
    && (if t == Second then minVal - 1.0 < x as real else minVal < x as real)
    && x as real < maxVal
  }

  /** Candidates of tier t that are increasing, each a good tick of the tier. */
  predicate GoodCandidates(t: Tier, minVal: real, maxVal: real, c: Result<seq<int>, Error>) {
    c.Ok? ==> Increasing(c.value) && forall x :: x in c.value ==> GoodTick(t, minVal, maxVal, x)
  }

  /** The i-th new year strictly inside the visible range is a good year tick. */
  lemma NewYearGood(minVal: real, maxVal: real, dt1: DateTime, dt2: DateTime, i: int)
    requires Converted(minVal, dt1) && Converted(maxVal, dt2)
    requires 0 <= i < |NewYears(dt1.year + 1, dt2.year)|
    ensures GoodTick(Year, minVal, maxVal, NewYears(dt1.year + 1, dt2.year)[i])
  {
    var x := NewYears(dt1.year + 1, dt2.year)[i];
    NewYearsAreNewYears(dt1.year + 1, dt2.year, i);
    NewYearsBetween(dt1, dt2, i);
    AboveIffAboveFloor(x, minVal);
    assert OnBoundary(Year, x);
  }

  /** The year candidates: new years strictly inside the visible range, in order. */
  lemma YearCandidatesGood(minVal: real, maxVal: real, dt1: DateTime, dt2: DateTime)
    requires Converted(minVal, dt1) && Converted(maxVal, dt2)
    ensures GoodCandidates(Year, minVal, maxVal, Ok(NewYears(dt1.year + 1, dt2.year)))
  {
    var c := NewYears(dt1.year + 1, dt2.year);
    NewYearsIncreasing(dt1.year + 1, dt2.year);
    forall x | x in c
      ensures GoodTick(Year, minVal, maxVal, x)
    {
      var i :| 0 <= i < |c| && c[i] == x;
      NewYearGood(minVal, maxVal, dt1, dt2, i);
    }
  }

  /** The i-th tick of the month walk from the month after dt1's is a good month tick. */
  lemma MonthTickGood(minVal: real, maxVal: real, dt1: DateTime, dt2: DateTime, k: int, lim: int, i: int)
    requires Converted(minVal, dt1) && Converted(maxVal, dt2)
    requires k == MonthIndex(dt1) + 1 && lim == CeilSeconds(dt2)
    requires 0 <= i < |MonthWalk(k, lim)|
    ensures GoodTick(Month, minVal, maxVal, MonthWalk(k, lim)[i])
  {
    var x := MonthWalk(k, lim)[i];
    MonthTickAt(k, lim, k + i);
    MonthTicksBetween(dt1, dt2, i);
    AboveIffAboveFloor(x, minVal);
    assert OnBoundary(Month, x);
  }

  /** The month candidates: firsts of months strictly inside the visible range, in order. */
  lemma MonthCandidatesGood(minVal: real, maxVal: real, dt1: DateTime, dt2: DateTime)
    requires Converted(minVal, dt1) && Converted(maxVal, dt2)
    ensures GoodCandidates(Month, minVal, maxVal, Ok(MonthWalk(MonthIndex(dt1) + 1, CeilSeconds(dt2))))
  {
    var k, lim := MonthIndex(dt1) + 1, CeilSeconds(dt2);
    var c := MonthWalk(k, lim);
    MonthWalkIncreasing(k, lim);
    forall x | x in c
      ensures GoodTick(Month, minVal, maxVal, x)
    {
      var i :| 0 <= i < |c| && c[i] == x;
      MonthTickGood(minVal, maxVal, dt1, dt2, k, lim, i);
    }
  }

  /** The fixed-step candidates: aligned instants strictly inside the visible range, in order. */
  lemma StepCandidatesGood(t: Tier, minVal: real, maxVal: real, dt1: DateTime, dt2: DateTime)
    requires FixedStep(t) && Converted(minVal, dt1) && Converted(maxVal, dt2)
    ensures GoodCandidates(t, minVal, maxVal, Ok(StepWalk(t, dt1, dt2)))
  {
    var c := StepWalk(t, dt1, dt2);
    StepWalkIncreasing(t, dt1, dt2);
    forall x | x in c
      ensures GoodTick(t, minVal, maxVal, x)
    {
      StepTickIff(t, dt1, dt2, x);
      AboveIffAboveFloor(x, minVal);
    }
  }

  /** The second candidates: whole seconds from int(minVal) to below maxVal, in order. */
  lemma SecondCandidatesGood(minVal: real, maxVal: real)
    ensures GoodCandidates(Second, minVal, maxVal, Ok(SecondCandidates(minVal, maxVal)))
  {
    IntRangeIncreasing(Trunc(minVal), Trunc(maxVal));
    forall x | x in SecondCandidates(minVal, maxVal)
      ensures GoodTick(Second, minVal, maxVal, x)
    {
      SecondTicksIff(minVal, maxVal, x);
    }
  }

  /** The year tier's candidates, as tickValues selects them, are good. */
  lemma YearTierGood(minVal: real, maxVal: real, dt1: DateTime, dt2: DateTime)
    requires Converted(minVal, dt1) && Converted(maxVal, dt2)
    ensures GoodCandidates(Year, minVal, maxVal, Candidates(Year, minVal, maxVal, dt1, dt2))
  {
    YearCandidatesGood(minVal, maxVal, dt1, dt2);
  }

  /** The month tier's candidates, as tickValues selects them, are good. */
  lemma MonthTierGood(minVal: real, maxVal: real, dt1: DateTime, dt2: DateTime)
    requires Converted(minVal, dt1) && Converted(maxVal, dt2)
    ensures GoodCandidates(Month, minVal, maxVal, Candidates(Month, minVal, maxVal, dt1, dt2))
  {
    var k, lim := MonthIndex(dt1) + 1, CeilSeconds(dt2);
    var c := MonthResult(k, lim);
    assert Candidates(Month, minVal, maxVal, dt1, dt2) == c;
    MonthCandidatesGood(minVal, maxVal, dt1, dt2);
    assert c.Ok? ==> c.value == MonthWalk(k, lim);
  }

  /** A fixed-step tier's candidates, as tickValues selects them, are good. */
  lemma StepTierGood(t: Tier, minVal: real, maxVal: real, dt1: DateTime, dt2: DateTime)
    requires FixedStep(t) && Converted(minVal, dt1) && Converted(maxVal, dt2)
    ensures GoodCandidates(t, minVal, maxVal, Candidates(t, minVal, maxVal, dt1, dt2))
  {
    StepCandidatesGood(t, minVal, maxVal, dt1, dt2);
  }

  /** Whatever the tier, its candidates are increasing and every one is a good tick. */
  lemma CandidatesGood(t: Tier, minVal: real, maxVal: real, dt1: DateTime, dt2: DateTime)
    requires t != SubSecond && Converted(minVal, dt1) && Converted(maxVal, dt2)
    ensures GoodCandidates(t, minVal, maxVal, Candidates(t, minVal, maxVal, dt1, dt2))
  {
    if t == Year {
      YearTierGood(minVal, maxVal, dt1, dt2);
    } else if t == Month {
      MonthTierGood(minVal, maxVal, dt1, dt2);
    } else if t == Second {
      SecondCandidatesGood(minVal, maxVal);
    } else {
      StepTierGood(t, minVal, maxVal, dt1, dt2);
    }
  }

  /**
   * Only the conversions raise ValueError: for a non-negative size, tickValues
   * fails with ValueError exactly when minVal or maxVal lies outside years
   * 1..9999 (the loops can only overflow, and thinning only divide by zero).
   */
  lemma TickValuesValueError(parent: (real, real, real) -> seq<Level>, minVal: real, maxVal: real, size: real)
    requires size >= 0.0
    ensures TickValuesSpec(parent, minVal, maxVal, size) == Err(ValueError)
            <==> !Representable(minVal) || !Representable(maxVal)
  {
    if Representable(minVal) && Representable(maxVal) && TierOf(maxVal - minVal) != SubSecond {
      var c := TierCandidates(minVal, maxVal);
      if c.Ok? {
        DecimateErrors(c.value, MaxMajSteps(size));
      }
    }
  }

  /**
   * A span of two seconds or less is handed to the parent class unchanged;
   * any wider span yields one level whose spacing is the tier's step,
   * whatever the ticks and the size.
   */
  lemma TickValuesLevels(parent: (real, real, real) -> seq<Level>, minVal: real, maxVal: real, size: real)
    requires Representable(minVal) && Representable(maxVal)
    ensures var r := TickValuesSpec(parent, minVal, maxVal, size);
            && (maxVal - minVal <= 2.0 ==> r == Ok(parent(minVal, maxVal, size)))
            && (maxVal - minVal > 2.0 && r.Ok? ==>
                  |r.value| == 1 && r.value[0].spacing == Step(TierOf(maxVal - minVal)) as real)
  {
    TierOfIff(maxVal - minVal, SubSecond);
  }

  /** For a non-negative size, at most int(size / 80) ticks are returned. */
  lemma TickValuesCount(parent: (real, real, real) -> seq<Level>, minVal: real, maxVal: real, size: real)
    requires size >= 0.0 && maxVal - minVal > 2.0
    requires TickValuesSpec(parent, minVal, maxVal, size).Ok?
    ensures |TickValuesSpec(parent, minVal, maxVal, size).value[0].ticks| <= MaxMajSteps(size)
  {
    TierOfIff(maxVal - minVal, SubSecond);
    DecimateBound(TierCandidates(minVal, maxVal).value, MaxMajSteps(size));
  }

  /**
   * For a non-negative size the returned ticks are strictly increasing, each
   * on its tier's boundary, and inside the visible range: after minVal (for
   * the second tier, after minVal - 1) and before maxVal.
   */
  lemma TickValuesGood(parent: (real, real, real) -> seq<Level>, minVal: real, maxVal: real, size: real)
    requires size >= 0.0 && maxVal - minVal > 2.0
    requires TickValuesSpec(parent, minVal, maxVal, size).Ok?
    ensures var t := TierOf(maxVal - minVal);
            var ticks := MajorTicks(minVal, maxVal, size).value;
            && TickValuesSpec(parent, minVal, maxVal, size).value[0].ticks == AsReals(ticks)
            && Increasing(ticks)
            && forall x :: x in ticks ==> GoodTick(t, minVal, maxVal, x)
  {
    TierOfIff(maxVal - minVal, SubSecond);
    var dt1, dt2 := FromTimestamp(minVal).value, FromTimestamp(maxVal).value;
    FromTimestampConverted(minVal);
    FromTimestampConverted(maxVal);
    var c := TierCandidates(minVal, maxVal).value;
    var m := MaxMajSteps(size);
    CandidatesGood(TierOf(maxVal - minVal), minVal, maxVal, dt1, dt2);
    DecimateIncreasing(c, m);
    forall x | x in Decimate(c, m).value
      ensures x in c
    {
      DecimateSubset(c, m, x);
    }
  }

  /** The loop of tier t, by the branch of tickValues that runs it. */
  method CandidateTicks(t: Tier, minVal: real, maxVal: real, dt1: DateTime, dt2: DateTime)
    returns (majticks: Result<seq<int>, Error>)
    requires t != SubSecond && WellFormed(dt1) && WellFormed(dt2) && InRange(ToSeconds(dt1))
    ensures majticks == Candidates(t, minVal, maxVal, dt1, dt2)
  {
    if t == Year {
      var ys := YearTicks.YearTicks(dt1, dt2);
      majticks := Ok(ys);
    } else if t == Month {
      majticks := MonthTicks.MonthTicks(dt1, dt2);
    } else if t == Second {
      majticks := Ok(SecondCandidates(minVal, maxVal));
    } else {
      majticks := StepTicks.StepTicks(t, dt1, dt2);
    }
  }

  /**
   * tickValues (dashboardViewer.py): convert both ends, classify the span,
   * run the tier's loop, and thin the candidates to int(size / 80).
   */
  method TickValues(parent: (real, real, real) -> seq<Level>, minVal: real, maxVal: real, size: real)
    returns (r: Result<seq<Level>, Error>)
    ensures r == TickValuesSpec(parent, minVal, maxVal, size)
  {
    var maxMajSteps := Trunc(size / LabelWidth);
    var o1 := FromTimestamp(minVal);
    if o1.None? {
      return Err(ValueError);
    }
    var o2 := FromTimestamp(maxVal);
    if o2.None? {
      return Err(ValueError);
    }
    var dt1, dt2 := o1.value, o2.value;
    FromTimestampConverted(minVal);
    var t := TierOf(maxVal - minVal);
    if t == SubSecond {
      return Ok(parent(minVal, maxVal, size));
    }
    var majticks := CandidateTicks(t, minVal, maxVal, dt1, dt2);
    if majticks.Err? {
      return Err(majticks.error);
    }
    var ticks := Decimate(majticks.value, maxMajSteps);
    if ticks.Err? {
      return Err(ticks.error);
    }
    r := Ok([Level(Step(t) as real, AsReals(ticks.value))]);
  }
}
