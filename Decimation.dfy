/**
 * Thinning of the candidate ticks: when there are more than maxMajSteps
 * of them, keep every k-th with k = int(np.ceil(float(L) / maxMajSteps)).
 */
module Decimation {

  import opened Wrappers
  import opened Numbers
  import opened Sequences

  /** s[::k] for k > 0: the elements at 0, k, 2k, ... */
  function Stride(s: seq<int>, k: nat): seq<int>
    requires k > 0
    decreases |s|
  {
    if |s| == 0 then [] else [s[0]] + Stride(s[if k < |s| then k else |s|..], k)
  }

  /** Ceiling division has one possible result: the q with a <= b * q < a + b. */
  lemma CeilDivUnique(a: nat, b: nat, q: int)
    requires b > 0 && a <= b * q < a + b
    ensures q == CeilDiv(a, b)
  {
    var p := CeilDiv(a, b);
    if p < q {
      MulLess(b, p, q);
    } else if q < p {
      MulLess(b, q, p);
    }
  }

  /** s[::k] has ceil(|s| / k) elements. */
  lemma {:induction false} StrideLength(s: seq<int>, k: nat)
    requires k > 0
    ensures |Stride(s, k)| == CeilDiv(|s|, k)
    decreases |s|
  {
    if |s| == 0 {
      CeilDivUnique(0, k, 0);
    } else if k < |s| {
      StrideLength(s[k..], k);
      var q := CeilDiv(|s| - k, k);
      assert k * (q + 1) == k * q + k;
      CeilDivUnique(|s|, k, q + 1);
    } else {
      assert Stride(s[|s|..], k) == [];
      CeilDivUnique(|s|, k, 1);
    }
  }

  /** The i-th element of s[::k] is s[i * k]. */
  lemma {:induction false} StrideAt(s: seq<int>, k: nat, i: nat)
    requires k > 0 && i < |Stride(s, k)|
    ensures i * k < |s| && Stride(s, k)[i] == s[i * k]
    decreases i
  {
    if i > 0 {
      var rest := s[if k < |s| then k else |s|..];
      assert Stride(s, k)[i] == Stride(rest, k)[i - 1];
      StrideAt(rest, k, i - 1);
      assert (i - 1) * k + k == i * k;
      assert k < |s|;
    }
  }

  /** Every element of s[::k] is an element of s. */
  lemma StrideSubset(s: seq<int>, k: nat, x: int)
    requires k > 0 && x in Stride(s, k)
    ensures x in s
  {
    var i :| 0 <= i < |Stride(s, k)| && Stride(s, k)[i] == x;
    StrideAt(s, k, i);
  }

  /** Taking every k-th element of an increasing list leaves it increasing. */
  lemma {:induction false} StrideIncreasing(s: seq<int>, k: nat)
    requires k > 0 && Increasing(s)
    ensures Increasing(Stride(s, k))
    decreases |s|
  {
    if |s| > 0 {
      var rest := s[if k < |s| then k else |s|..];
      assert Increasing(rest) by {
        forall i, j | 0 <= i < j < |rest|
          ensures rest[i] < rest[j]
        {
          assert rest[i] == s[|s| - |rest| + i] && rest[j] == s[|s| - |rest| + j];
        }
      }
      StrideIncreasing(rest, k);
      if |Stride(rest, k)| > 0 {
        assert Stride(rest, k)[0] == rest[0] == s[k];
      }
      PrependIncreasing(s[0], Stride(rest, k));
    }
  }

  /** s[::-1]: the elements of s from the last to the first. */
  function Reverse(s: seq<int>): (r: seq<int>)
    ensures |r| == |s|
  {
    seq(|s|, i requires 0 <= i < |s| => s[|s| - 1 - i])
  }

  /** s[::k] for any nonzero k: from the first element forwards, or from the last backwards when k < 0. */
  function Slice(s: seq<int>, k: int): seq<int>
    requires k != 0
  {
    if k > 0 then Stride(s, k) else Stride(Reverse(s), -k)
  }

  /** int(np.ceil(float(L) / m)) for exact operands: the least k with L / m <= k. */
  function CeilQuotient(L: nat, m: int): (k: int)
    requires m != 0
    ensures m > 0 ==> (k - 1) * m < L <= k * m
    ensures m < 0 ==> k * m <= L < (k - 1) * m
  {
    if m > 0 then
      var q := CeilDiv(L, m);
      assert (q - 1) * m == m * q - m;
      q
    else
      var n := -m;
      assert L == n * (L / n) + L % n;
      -(L / n)
  }

  /**
   * Lines 113-115 of dashboardViewer.py: the ticks unchanged while there
   * are at most m of them, otherwise majticks[::k]. Python raises
   * ZeroDivisionError for m == 0, and ValueError for a slice step of zero,
   * which a negative m (a negative size) produces when L < -m.
   */
  function Decimate(ticks: seq<int>, m: int): Result<seq<int>, Error> {
    var L := |ticks|;
    if L <= m then Ok(ticks)
    else if m == 0 then Err(ZeroDivisionError)
    else
      var k := CeilQuotient(L, m);
      if k == 0 then Err(ValueError) else Ok(Slice(ticks, k))
  }

  /**
   * Decimation fails exactly when m == 0 with ticks to thin, or when a
   * negative m exceeds the count in magnitude (a zero slice step).
   */
  lemma DecimateErrors(ticks: seq<int>, m: int)
    ensures Decimate(ticks, m).Err? <==> (m == 0 && |ticks| > 0) || (m < 0 && |ticks| < -m)
    ensures Decimate(ticks, m) == Err(ZeroDivisionError) <==> m == 0 && |ticks| > 0
  {
    var L := |ticks|;
    if m < 0 {
      var k := CeilQuotient(L, m);
      if k < 0 {
        MulAtLeast(-m, -k);
      }
    }
  }

  /** Thinning by m >= 0 leaves at most m ticks. */
  lemma DecimateBound(ticks: seq<int>, m: int)
    requires m >= 0 && Decimate(ticks, m).Ok?
    ensures |Decimate(ticks, m).value| <= m
  {
    var L := |ticks|;
    if L > m {
      var k := CeilQuotient(L, m);
      var q := CeilDiv(L, k);
      StrideLength(ticks, k);
      if q > m {
        MulLess(k, m, q);
      }
    }
  }

  /**
   * Thinning by m > 0 leaves at most m ticks unchanged; from more it keeps
   * the first tick and then every k-th, with k = ceil(L / m).
   */
  lemma DecimateKeeps(ticks: seq<int>, m: int, i: nat)
    requires m > 0
    ensures Decimate(ticks, m).Ok?
    ensures |ticks| <= m ==> Decimate(ticks, m).value == ticks
    ensures |ticks| > m ==>
              var k := CeilDiv(|ticks|, m);
              var r := Decimate(ticks, m).value;
              && |r| == CeilDiv(|ticks|, k)
              && (i < |r| ==> i * k < |ticks| && r[i] == ticks[i * k])
  {
    if |ticks| > m {
      var k := CeilDiv(|ticks|, m);
      StrideLength(ticks, k);
      if i < |Stride(ticks, k)| {
        StrideAt(ticks, k, i);
      }
    }
  }

  /** Thinning by m >= 0 keeps an increasing list increasing and its first element in front. */
  lemma DecimateIncreasing(ticks: seq<int>, m: int)
    requires m >= 0 && Increasing(ticks) && Decimate(ticks, m).Ok?
    ensures Increasing(Decimate(ticks, m).value)
    ensures |ticks| > 0 ==> |Decimate(ticks, m).value| > 0 && Decimate(ticks, m).value[0] == ticks[0]
  {
    if |ticks| > m {
      StrideIncreasing(ticks, CeilDiv(|ticks|, m));
    }
  }

  /** Thinning only drops ticks: everything it keeps was a candidate. */
  lemma DecimateSubset(ticks: seq<int>, m: int, x: int)
    requires Decimate(ticks, m).Ok? && x in Decimate(ticks, m).value
    ensures x in ticks
  {
    var L := |ticks|;
    if L > m {
      var k := CeilQuotient(L, m);
      if k > 0 {
        StrideSubset(ticks, k, x);
      } else {
        var rev := Reverse(ticks);
        StrideSubset(rev, -k, x);
        var i :| 0 <= i < |rev| && rev[i] == x;
        assert ticks[L - 1 - i] == x;
      }
    }
  }
}
