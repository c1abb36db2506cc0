/** Sign and cancellation facts of real products, which the solver needs spelled out. */
module Reals {

  lemma MulSign(k: real, d: real)
    ensures k > 0.0 && d > 0.0 ==> k * d > 0.0
    ensures k > 0.0 && d < 0.0 ==> k * d < 0.0
    ensures k < 0.0 && d > 0.0 ==> k * d < 0.0
    ensures k < 0.0 && d < 0.0 ==> k * d > 0.0
  {
  }

  lemma NonNegative(a: real, b: real)
    requires a >= 0.0 && b >= 0.0
    ensures a * b >= 0.0
  {
  }

  lemma ProductSign(p: real, q: real)
    ensures (p >= 0.0 && q >= 0.0) || (p <= 0.0 && q <= 0.0) ==> p * q >= 0.0
    ensures (p >= 0.0 && q <= 0.0) || (p <= 0.0 && q >= 0.0) ==> p * q <= 0.0
  {
  }

  lemma SignOfProduct(d: real, e: real)
    ensures d > 0.0 ==> (d * e > 0.0 <==> e > 0.0)
    ensures d < 0.0 ==> (d * e < 0.0 <==> e > 0.0)
  {
  }

  lemma CancelFactor(d: real, p: real, q: real)
    requires d != 0.0 && d * p == d * q
    ensures p == q
  {
    assert d * (p - q) == 0.0;
  }

  lemma DivCancel(a: real, d: real)
    requires d != 0.0
    ensures (a / d) * d == a
  {
  }
}
