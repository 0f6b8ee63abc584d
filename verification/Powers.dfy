/** Powers of ten and the floor of the decimal logarithm, in exact arithmetic. */
module Powers {
  import opened Reals

  function Pow10(e: int): (p: real)
    ensures 0.0 < p
    decreases if e < 0 then 0 - e else e
  {
    if e == 0 then 1.0
    else if e > 0 then 10.0 * Pow10(e - 1)
    else Pow10(e + 1) / 10.0
  }

  lemma Pow10Step(e: int)
    ensures Pow10(e + 1) == 10.0 * Pow10(e)
  {
  }

  lemma {:induction false} Pow10Monotone(a: int, b: int)
    requires a < b
    ensures 10.0 * Pow10(a) <= Pow10(b)
    decreases b - a
  {
    Pow10Step(b - 1);
    if a + 1 < b {
      Pow10Monotone(a, b - 1);
    }
  }

  /** e is the floor of the decimal logarithm of delta. */
  ghost predicate IsFloorLog10(delta: real, e: int) {
    Pow10(e) <= delta < Pow10(e + 1)
  }

  lemma {:induction false} PowerAbove(n: nat)
    ensures n as real + 1.0 <= Pow10(n)
  {
    if n > 0 {
      PowerAbove(n - 1);
    }
  }

  lemma {:induction false} PowersAdd(a: int, b: int)
    ensures Pow10(a) * Pow10(b) == Pow10(a + b)
    decreases if b < 0 then 0 - b else b
  {
    Pow10Zero();
    hide Pow10;
    if b > 0 {
      PowersAdd(a, b - 1);
      Pow10Step(b - 1);
      Pow10Step(a + b - 1);
      TimesTen(Pow10(a), Pow10(b - 1), Pow10(a + b - 1));
    } else if b < 0 {
      PowersAdd(a, b + 1);
      Pow10Step(b);
      Pow10Step(a + b);
      assert a + (b + 1) == a + b + 1;
      TimesTen(Pow10(a), Pow10(b), Pow10(a + b));
    }
  }

  lemma Pow10Zero()
    ensures Pow10(0) == 1.0
  {
  }

  lemma TimesTen(p: real, q: real, r: real)
    ensures p * (10.0 * q) == 10.0 * r <==> p * q == r
  {
  }

  /** Some power of ten with a negative exponent is at most delta. */
  lemma BelowPower(delta: real, n: nat)
    requires 0.0 < delta
    requires 1.0 / delta <= n as real
    ensures Pow10(0 - n) <= delta
  {
    PowerAbove(n);
    PowersAdd(0 - n, n);
    QuotientTimes(1.0, delta);
    ReciprocalBelow(Pow10(0 - n), Pow10(n), delta, 1.0 / delta);
  }

  lemma ReciprocalBelow(q: real, p: real, delta: real, inverse: real)
    requires 0.0 < q && 0.0 < delta && q * p == 1.0 && inverse * delta == 1.0 && inverse <= p
    ensures q <= delta
  {
  }

  /** The floor of the decimal logarithm, searched for upwards. */
  function LogFrom(delta: real, low: int, steps: nat): (e: int)
    requires Pow10(low) <= delta
    requires delta < Pow10(low + steps + 1)
    ensures IsFloorLog10(delta, e)
    decreases steps
  {
    if delta < Pow10(low + 1) then low else LogFrom(delta, low + 1, steps - 1)
  }

  /** Math.floor(Math.log(delta) / Math.LN10), in exact arithmetic. */
  function FloorLog10(delta: real): (e: int)
    requires 0.0 < delta
    ensures IsFloorLog10(delta, e)
  {
    if 1.0 <= delta then
      PowerAbove(delta.Floor + 1);
      LogFrom(delta, 0, delta.Floor)
    else
      QuotientSign(1.0, delta);
      var n: nat := (1.0 / delta).Floor + 1;
      BelowPower(delta, n);
      LogFrom(delta, 0 - n, n)
  }

  lemma FloorLog10IsUnique(delta: real, e: int)
    requires 0.0 < delta && IsFloorLog10(delta, e)
    ensures e == FloorLog10(delta)
  {
    var f := FloorLog10(delta);
    if e < f {
      Pow10Step(e);
      Pow10Monotone(e, f);
    } else if f < e {
      Pow10Step(f);
      Pow10Monotone(f, e);
    }
  }
}
