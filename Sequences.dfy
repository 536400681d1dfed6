/** Ordering of tick lists. */
module Sequences {

  /** Every element is smaller than every later one. */
  predicate Increasing(s: seq<int>) {
    forall i, j :: 0 <= i < j < |s| ==> s[i] < s[j]
  }

  /** Putting a smaller element in front keeps a list increasing. */
  lemma PrependIncreasing(x: int, s: seq<int>)
    requires Increasing(s) && (|s| > 0 ==> x < s[0])
    ensures Increasing([x] + s)
  {
    forall i, j | 0 <= i < j < |s| + 1
      ensures ([x] + s)[i] < ([x] + s)[j]
    {
      if i > 0 {
        assert ([x] + s)[i] == s[i - 1];
      }
    }
  }
}
