/**
 * Candidate ticks of the second tier: range(int(minVal), int(maxVal)),
 * every whole second from the truncated minimum up to, not including,
 * the truncated maximum.
 */
module SecondTicks {

  import opened Numbers
  import opened Sequences

  /** range(lo, hi): lo, lo + 1, ..., hi - 1, empty when hi <= lo. */
  function IntRange(lo: int, hi: int): seq<int> {
    seq(if lo < hi then hi - lo else 0, i => lo + i)
  }

  /** A whole number is in range(lo, hi) exactly when lo <= s < hi. */
  lemma IntRangeHas(lo: int, hi: int, s: int)
    ensures s in IntRange(lo, hi) <==> lo <= s < hi
  {
    if lo <= s < hi {
      assert IntRange(lo, hi)[s - lo] == s;
    }
  }

  /** range(lo, hi) counts up one at a time. */
  lemma IntRangeIncreasing(lo: int, hi: int)
    ensures var r := IntRange(lo, hi);
            && Increasing(r)
            && forall i :: 0 <= i < |r| - 1 ==> r[i + 1] == r[i] + 1
  {
  }

  /** The ticks of the second tier for the visible range minVal..maxVal. */
  function SecondCandidates(minVal: real, maxVal: real): seq<int> {
    IntRange(Trunc(minVal), Trunc(maxVal))
  }

  /**
   * The second ticks are exactly the whole seconds from int(minVal) below
   * int(maxVal); each lies below maxVal, but only above minVal - 1: with
   * truncation the first tick can precede minVal (2 for minVal = 2.5).
   */
  lemma SecondTicksIff(minVal: real, maxVal: real, s: int)
    ensures s in SecondCandidates(minVal, maxVal) <==> Trunc(minVal) <= s < Trunc(maxVal)
    ensures s in SecondCandidates(minVal, maxVal) ==> minVal - 1.0 < s as real < maxVal
  {
    IntRangeHas(Trunc(minVal), Trunc(maxVal), s);
  }
}
