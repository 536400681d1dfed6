/** Integer views of real numbers, as Python's int() and math.ceil compute them. */
module Numbers {

  /** Python's int() on a float: truncation toward zero. */
  function Trunc(x: real): (r: int)
    ensures 0.0 <= x ==> 0 <= r && r as real <= x < r as real + 1.0
    ensures x < 0.0 ==> r <= 0 && r as real - 1.0 < x <= r as real
  {
    if x >= 0.0 then x.Floor else -((-x).Floor)
  }

  /** A whole number lies above x exactly when it lies above the floor of x. */
  lemma AboveIffAboveFloor(t: int, x: real)
    ensures x < t as real <==> x.Floor < t
  {
  }

  /** A positive multiple of b is at least b. */
  lemma {:induction false} MulAtLeast(b: nat, d: int)
    requires d >= 1
    ensures b * d >= b
    decreases d
  {
    if d > 1 {
      MulAtLeast(b, d - 1);
      assert b * d == b * (d - 1) + b;
    }
  }

  /** Multiples of a positive b that differ are at least b apart. */
  lemma MulLess(b: int, p: int, q: int)
    requires b > 0 && p < q
    ensures b * p + b <= b * q
  {
    MulAtLeast(b, q - p);
    assert b * q == b * p + b * (q - p);
  }

  /** Ceiling division of naturals, np.ceil(float(a) / b) for exact operands. */
  function CeilDiv(a: nat, b: nat): (q: nat)
    requires b > 0
    ensures a <= b * q
    ensures b * q < a + b
  {
    var q := (a + b - 1) / b;
    assert a + b - 1 == b * q + (a + b - 1) % b;
    q
  }
}
