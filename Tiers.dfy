/**
 * The granularity tiers of the date axis: which tier a visible span falls
 * in, and the step (timedelta) each tier declares as its spacing.
 */
module Tiers {

  /** The granularity levels, coarsest first. */
  datatype Tier = Year | Month | Day | Hour | TenMinute | Minute | TenSecond | Second | SubSecond

  /** Position of a tier in the table, 0 for Year up to 8 for SubSecond. */
  function Rank(t: Tier): nat {
    match t
    case Year => 0
    case Month => 1
    case Day => 2
    case Hour => 3
    case TenMinute => 4
    case Minute => 5
    case TenSecond => 6
    case Second => 7
    case SubSecond => 8
  }

  /** The tier just above t in the table. */
  function Coarser(t: Tier): (c: Tier)
    requires t != Year
    ensures Rank(c) + 1 == Rank(t)
  {
    match t
    case Month => Year
    case Day => Month
    case Hour => Day
    case TenMinute => Hour
    case Minute => TenMinute
    case TenSecond => Minute
    case Second => TenSecond
    case SubSecond => Second
  }

  /** The span, in seconds, that a range must exceed to fall in tier t. */
  function Threshold(t: Tier): (r: nat)
    requires t != SubSecond
  {
    match t
    case Year => 63072001
    case Month => 5270400
    case Day => 172800
    case Hour => 7200
    case TenMinute => 1200
    case Minute => 120
    case TenSecond => 20
    case Second => 2
  }

  /** The tier of a span dx = maxVal - minVal: the first threshold, largest first, that dx exceeds. */
  function TierOf(dx: real): Tier {
    if dx > 63072001.0 then Year
    else if dx > 5270400.0 then Month
    else if dx > 172800.0 then Day
    else if dx > 7200.0 then Hour
    else if dx > 1200.0 then TenMinute
    else if dx > 120.0 then Minute
    else if dx > 20.0 then TenSecond
    else if dx > 2.0 then Second
    else SubSecond
  }

  /**
   * Exactly one tier applies to each span: dx falls in tier t iff it exceeds
   * t's threshold and does not exceed the threshold of the tier above t.
   */
  lemma TierOfIff(dx: real, t: Tier)
    ensures TierOf(dx) == t <==>
              && (t != SubSecond ==> Threshold(t) as real < dx)
              && (t != Year ==> dx <= Threshold(Coarser(t)) as real)
  {
  }

  /** A wider span never gets a finer tier. */
  lemma TierOfMonotone(dx: real, dy: real)
    requires dx <= dy
    ensures Rank(TierOf(dy)) <= Rank(TierOf(dx))
  {
  }

  /** The tier's step in whole seconds: timedelta(days=366), (days=31), (days=1), (hours=1), ... */
  function Step(t: Tier): (r: nat)
    requires t != SubSecond
    ensures 0 < r < Threshold(t)
  {
    match t
    case Year => 366 * 86400
    case Month => 31 * 86400
    case Day => 86400
    case Hour => 3600
    case TenMinute => 600
    case Minute => 60
    case TenSecond => 10
    case Second => 1
  }

  /** Steps shrink strictly down the table. */
  lemma StepsShrink(t: Tier)
    requires t != Year && t != SubSecond
    ensures Step(t) < Step(Coarser(t))
  {
  }
}
