/** Facts about exact reals that several modules use. Floating-point rounding is abstracted away. */
module Reals {

  ghost predicate StrictlyIncreasing(x: seq<real>) {
    forall i, j :: 0 <= i < j < |x| ==> x[i] < x[j]
  }

  lemma QuotientInUnit(u: real, d: real)
    requires 0.0 < u < d
    ensures 0.0 < u / d < 1.0
  {
    assert (u / d) * d == u;
    if u / d <= 0.0 { assert false; }
    if u / d >= 1.0 { assert false; }
  }

  lemma QuotientSign(u: real, d: real)
    requires 0.0 < d && 0.0 < u
    ensures 0.0 < u / d
  {
  }

  lemma QuotientIs(q: real, d: real, u: real)
    requires d != 0.0 && q * d == u
    ensures u / d == q
  {
  }

  lemma QuotientTimes(u: real, d: real)
    requires d != 0.0
    ensures (u / d) * d == u
  {
  }

  lemma NonnegativeProduct(a: real, b: real)
    requires 0.0 <= a && 0.0 <= b
    ensures 0.0 <= a * b
  {
  }

  lemma PositiveProduct(a: real, b: real)
    requires 0.0 < a && 0.0 < b
    ensures 0.0 < a * b
  {
  }

  lemma FactorSign(a: real, b: real)
    requires 0.0 < b
    ensures 0.0 < a * b ==> 0.0 < a
    ensures 0.0 <= a * b ==> 0.0 <= a
  {
  }

  function Ceiling(u: real): (n: int)
    ensures u <= n as real < u + 1.0
  {
    -((-u).Floor)
  }

  lemma AbsTimes(k: real, u: real)
    requires 0.0 < k
    ensures Abs(k * u) == k * Abs(u)
  {
  }

  function Abs(u: real): real {
    if u < 0.0 then -u else u
  }

  function Smaller(a: real, b: real): real {
    if a < b then a else b
  }

  function Larger(a: real, b: real): real {
    if a < b then b else a
  }
}
