/** Axis ranges and tick sizes of flot (jquery.flot.js): setRange and the numeric part of
    setupTickGeneration. */
module Ticks {
  import opened Options
  import opened Powers
  import opened Reals

  /** The options that setRange and snapRangeToTicks read. */
  datatype AxisOptions = AxisOptions(min: Option<real>, max: Option<real>, autoscaleMargin: Option<real>)

  // ---------------------------------------------------------------- setRange

  /** JavaScript's `+(option != null ? option : data)`; null converts to 0. */
  function Requested(option: Option<real>, data: Option<real>): real {
    if option.Some? then option.value else if data.Some? then data.value else 0.0
  }

  function Margin(delta: real, margin: real): real {
    delta * margin
  }

  /** A limit moved by a distance, or as far as zero when that is on the way. */
  ghost predicate Moved(from: real, to: real, distance: real) {
    || to == from + distance
    || (to == 0.0 && (from + distance < 0.0 <= from || from <= 0.0 < from + distance))
  }

  /** With a margin that is not negative, the range comes out proper exactly when the requested limits
      are not the wrong way round, and the margin only widens. A negative margin narrows a range, which stays
      proper exactly when less than the whole of it is taken away. Limits the options fix are kept, and no
      margin carries a free limit of one-sided data across zero. */
  method SetRange(opts: AxisOptions, datamin: Option<real>, datamax: Option<real>) returns (min: real, max: real)
    ensures Widens(opts) || Requested(opts.min, datamin) == Requested(opts.max, datamax) ==>
              (min < max <==> Requested(opts.min, datamin) <= Requested(opts.max, datamax))
    ensures !Widens(opts) && Requested(opts.min, datamin) < Requested(opts.max, datamax) ==>
              (min < max <==> 0.0 < 1.0 + FreeLimits(opts) * opts.autoscaleMargin.value)
    ensures opts.min == opts.max == datamin == datamax == None ==> min == -1.0 && max == 1.0
    ensures opts.min.Some? ==> min == opts.min.value
    ensures opts.max.Some? && Requested(opts.min, datamin) != opts.max.value ==> max == opts.max.value
    ensures Requested(opts.min, datamin) == Requested(opts.max, datamax) ==>
              var only := Requested(opts.min, datamin);
              var widen := if only == 0.0 then 1.0 else 0.01;
              && min == (if opts.min.Some? then only else only - widen)
              && max == if opts.min == None && opts.max.Some? then only else only + widen
    ensures Widens(opts) && min < max ==>
              min <= Requested(opts.min, datamin) && Requested(opts.max, datamax) <= max
    ensures Requested(opts.min, datamin) < Requested(opts.max, datamax) ==>
              && (opts.min == None && datamin.Some? && 0.0 <= datamin.value ==> 0.0 <= min)
              && (opts.max == None && datamax.Some? && datamax.value <= 0.0 ==> max <= 0.0)
              && (opts.autoscaleMargin.Some? && opts.min == None ==>
                    Moved(Requested(opts.min, datamin), min,
                          -Margin(Requested(opts.max, datamax) - Requested(opts.min, datamin),
                                  opts.autoscaleMargin.value)))
              && (opts.autoscaleMargin.Some? && opts.max == None ==>
                    Moved(Requested(opts.max, datamax), max,
                          Margin(Requested(opts.max, datamax) - Requested(opts.min, datamin),
                                 opts.autoscaleMargin.value)))
              && (opts.autoscaleMargin == None ==>
                    min == Requested(opts.min, datamin) && max == Requested(opts.max, datamax))
  {
    hide Margin;
    min, max := Requested(opts.min, datamin), Requested(opts.max, datamax);
    var delta := max - min;
    if delta == 0.0 {
      var widen := if max == 0.0 then 1.0 else 0.01;
      if opts.min == None {
        min := min - widen;
      }
      if opts.max == None || opts.min != None {
        max := max + widen;
      }
    } else {
      var margin := opts.autoscaleMargin;
      if margin != None {
        MarginSign(delta, margin.value);
        MarginsTaken(delta, margin.value, FreeLimits(opts));
        if opts.min == None {
          min := min - Margin(delta, margin.value);
          if min < 0.0 && datamin != None && datamin.value >= 0.0 {
            min := 0.0;
          }
        }
        if opts.max == None {
          max := max + Margin(delta, margin.value);
          if max > 0.0 && datamax != None && datamax.value <= 0.0 {
            max := 0.0;
          }
        }
      }
    }
  }

  predicate Widens(opts: AxisOptions) {
    opts.autoscaleMargin.Some? ==> 0.0 <= opts.autoscaleMargin.value
  }

  /** How many limits the options leave free. */
  function FreeLimits(opts: AxisOptions): real {
    (if opts.min == None then 1.0 else 0.0) + (if opts.max == None then 1.0 else 0.0)
  }

  lemma MarginSign(delta: real, margin: real)
    ensures (0.0 <= margin) == (0.0 <= delta) ==> 0.0 <= Margin(delta, margin)
    ensures (0.0 <= margin) != (0.0 <= delta) ==> Margin(delta, margin) <= 0.0
  {
  }

  lemma MarginsTaken(delta: real, margin: real, count: real)
    ensures delta + count * Margin(delta, margin) == delta * (1.0 + count * margin)
    ensures 0.0 < delta ==> (0.0 < delta + count * Margin(delta, margin) <==> 0.0 < 1.0 + count * margin)
  {
    assert count * (delta * margin) == delta * (count * margin);
    ProductSign(delta, 1.0 + count * margin);
  }

  lemma ProductSign(delta: real, x: real)
    ensures 0.0 < delta ==> (0.0 < delta * x <==> 0.0 < x)
  {
  }

  // ---------------------------------------------------------------- setupTickGeneration

  /** The options that setupTickGeneration reads; noTicks is the requested or estimated number of ticks. */
  datatype TickOptions = TickOptions(
    noTicks: real, tickDecimals: Option<int>, minTickSize: Option<real>, tickSize: Option<real>)

  datatype TickSetup = TickSetup(delta: real, tickDecimals: nat, tickSize: real)

  /** Neither minTickSize nor tickSize replaced the computed size. */
  ghost predicate Computed(opts: TickOptions, size: real) {
    && (opts.minTickSize == None || opts.minTickSize.value < size)
    && (opts.tickSize == None || opts.tickSize.value == 0.0)
  }

  ghost predicate IsWhole(v: real) {
    v == v.Floor as real
  }

  /** Ten to a natural power is a whole number. */
  lemma {:induction false} Pow10Whole(n: nat) returns (k: nat)
    ensures Pow10(n) == k as real
  {
    if n == 0 {
      k := 1;
    } else {
      var j := Pow10Whole(n - 1);
      k := 10 * j;
    }
  }

  /** size is a whole number of units, of which there are scale to one. */
  ghost predicate WholeUnits(size: real, scale: real) {
    IsWhole(size * scale)
  }

  /** A whole mantissa scaled by 10^-dec is a whole number of units at any precision of at least dec. */
  lemma WholeMantissa(mantissa: nat, dec: int, places: nat, size: real)
    requires dec <= places
    requires size == mantissa as real * Pow10(0 - dec)
    ensures WholeUnits(size, Pow10(places))
  {
    hide Pow10;
    var k := Pow10Whole(places - dec);
    PowersAdd(0 - dec, places);
    assert 0 - dec + places == places - dec;
    WholeProduct(mantissa, Pow10(0 - dec), Pow10(places), k, size);
  }

  lemma WholeProduct(m: nat, p: real, q: real, k: nat, size: real)
    requires size == m as real * p && p * q == k as real
    ensures WholeUnits(size, q)
  {
    assert size * q == m as real * (p * q);
    assert size * q == (m * k) as real;
  }

  /** 2.5 at 10^-dec is 25 at 10^-(dec+1). */
  lemma HalfStep(dec: int)
    ensures 2.5 * Pow10(0 - dec) == 25.0 * Pow10(0 - (dec + 1))
  {
  }

  // ---------------------------------------------------------------- which size is chosen

  /** The unit of the size is the power of ten at or below delta, or the last decimal place that is allowed
      when that is coarser. */
  ghost predicate IsUnit(delta: real, maxDec: Option<int>, e: int) {
    if maxDec.Some? && delta < Pow10(0 - maxDec.value) then e == 0 - maxDec.value
    else IsFloorLog10(delta, e)
  }

  /** A size of 2.5 units needs one more decimal than the unit. */
  predicate HalvesAllowed(maxDec: Option<int>, e: int) {
    maxDec.Some? ==> 1 - e <= maxDec.value
  }

  /** The size for an ideal distance delta, and the decimals it is shown with: 1, 2, 2.5, 5 or 10 units. */
  ghost predicate IsNice(delta: real, maxDec: Option<int>, e: int, size: real, dec: int) {
    var u := Pow10(e);
    && IsUnit(delta, maxDec, e)
    && (delta < 1.5 * u ==> size == u)
    && (1.5 * u <= delta < 3.0 * u ==>
          size == if 2.25 * u < delta && HalvesAllowed(maxDec, e) then 2.5 * u else 2.0 * u)
    && (3.0 * u <= delta < 7.5 * u ==> size == 5.0 * u)
    && (7.5 * u <= delta ==> size == 10.0 * u)
    && dec == if size == 2.5 * u then 1 - e else 0 - e
  }

  ghost predicate IsCandidate(maxDec: Option<int>, e: int, size: real) {
    var u := Pow10(e);
    size == u || size == 2.0 * u || size == 5.0 * u || size == 10.0 * u || (HalvesAllowed(maxDec, e) && size == 2.5 * u)
  }

  /** Of all candidates the chosen size is the one nearest to delta, with one exception: from 3 units up to
      the middle between 5 and the next smaller candidate it is 5 units all the same. */
  lemma NiceIsNearest(delta: real, maxDec: Option<int>, e: int, size: real, dec: int, other: real)
    requires 0.0 < delta && IsNice(delta, maxDec, e, size, dec) && IsCandidate(maxDec, e, other)
    ensures IsCandidate(maxDec, e, size)
    ensures var u := Pow10(e);
            if 3.0 * u <= delta < (if HalvesAllowed(maxDec, e) then 3.75 else 3.5) * u then size == 5.0 * u
            else Abs(size - delta) <= Abs(other - delta)
  {
    hide Pow10;
  }

  /** No fewer decimals express the size, except that a size of 10 units does with one less. */
  lemma NiceDecimals(delta: real, maxDec: Option<int>, e: int, size: real, dec: int, places: int)
    requires 0.0 < delta && IsNice(delta, maxDec, e, size, dec) && places < dec
    ensures WholeUnits(size, Pow10(places)) <==> size == 10.0 * Pow10(e) && places == dec - 1
  {
    hide Pow10, WholeUnits, IsUnit, HalvesAllowed;
    PowersAdd(e, places);
    SmallPower(e + places);
    var u := Pow10(e);
    assert e + places == 0 ==> size == 2.5 * u;
    assert size == u || size == 2.0 * u || size == 2.5 * u || size == 5.0 * u || size == 10.0 * u;
    hide IsNice;
    UnitsOf(size, u, Pow10(places), Pow10(e + places));
  }

  lemma SmallPower(k: int)
    requires k <= 0
    ensures k == 0 ==> Pow10(k) == 1.0
    ensures k == -1 ==> Pow10(k) == 0.1
    ensures k < -1 ==> 0.0 < Pow10(k) <= 0.01
  {
    assert Pow10(-1) == 0.1;
    if k < -1 {
      Pow10Monotone(k, -1);
    }
  }

  lemma UnitsOf(size: real, u: real, p: real, q: real)
    requires u * p == q && (q == 1.0 || q == 0.1 || 0.0 < q <= 0.01)
    requires size == u || size == 2.0 * u || size == 2.5 * u || size == 5.0 * u || size == 10.0 * u
    requires 0.0 < u && (q == 1.0 ==> size == 2.5 * u)
    ensures WholeUnits(size, p) <==> size == 10.0 * u && q == 0.1
  {
    assert size == u ==> size * p == q;
    assert size == 2.0 * u ==> size * p == 2.0 * q;
    assert size == 2.5 * u ==> size * p == 2.5 * q;
    assert size == 5.0 * u ==> size * p == 5.0 * q;
    assert size == 10.0 * u ==> size * p == 10.0 * q;
  }

  lemma UnitExponent(delta: real, maxDec: Option<int>)
    requires 0.0 < delta
    ensures var dec := 0 - FloorLog10(delta);
            IsUnit(delta, maxDec, 0 - if maxDec.Some? && dec > maxDec.value then maxDec.value else dec)
  {
    var e := FloorLog10(delta);
    hide Pow10, FloorLog10;
    if maxDec.Some? {
      var limit := 0 - maxDec.value;
      if e < limit {
        if e + 1 < limit {
          Pow10Monotone(e + 1, limit);
        }
      } else if limit < e {
        Pow10Monotone(limit, e);
      }
    }
  }

  lemma CountedIn(norm: real, u: real, delta: real, k: real)
    requires 0.0 < u && norm * u == delta
    ensures norm < k <==> delta < k * u
    ensures k < norm <==> k * u < delta
  {
    assert (k - norm) * u == k * u - delta;
    if k > norm {
      PositiveProduct(k - norm, u);
    } else if norm > k {
      PositiveProduct(norm - k, u);
      assert (norm - k) * u == delta - k * u;
    }
  }

  /** 1, 2, 2.5, 5 or 10 times a power of ten, near delta and no finer than maxDec decimals allow
      (1695-1722); dec is the number of decimals it needs. */
  method NiceSize(delta: real, maxDec: Option<int>) returns (size: real, dec: int)
    requires 0.0 < delta
    ensures exists e :: IsNice(delta, maxDec, e, size, dec)
    ensures 3.0 * size > 2.0 * delta
    ensures maxDec == None ==> 3.0 * size <= 5.0 * delta
    ensures maxDec.Some? ==> dec <= maxDec.value
    ensures forall places: nat :: dec <= places ==> WholeUnits(size, Pow10(places))
  {
    hide Pow10, FloorLog10, WholeUnits, IsUnit, IsNice;
    UnitExponent(delta, maxDec);
    dec := 0 - FloorLog10(delta);
    if maxDec.Some? && dec > maxDec.value {
      dec := maxDec.value;
    }
    ghost var e := 0 - dec;
    var magn := Pow10(0 - dec);
    var norm := delta / magn;
    QuotientTimes(delta, magn);
    if norm < 1.5 {
      size := 1.0;
    } else if norm < 3.0 {
      size := 2.0;
      if norm > 2.25 && (maxDec == None || dec + 1 <= maxDec.value) {
        size := 2.5;
        dec := dec + 1;
      }
    } else if norm < 7.5 {
      size := 5.0;
    } else {
      size := 10.0;
    }
    NiceMantissa(delta, maxDec, e, norm, size, dec);
    size := size * magn;
    NiceBounds(delta, maxDec, e, size, dec);
    NiceIsWhole(delta, maxDec, e, size, dec);
  }

  lemma NiceBounds(delta: real, maxDec: Option<int>, e: int, size: real, dec: int)
    requires 0.0 < delta && IsNice(delta, maxDec, e, size, dec)
    ensures 3.0 * size > 2.0 * delta
    ensures maxDec == None ==> 3.0 * size <= 5.0 * delta
    ensures maxDec.Some? ==> dec <= maxDec.value
  {
    Pow10Step(e);
    if maxDec.Some? {
      NoSmallerUnit(delta, maxDec.value, e);
    }
    hide Pow10;
  }

  lemma NoSmallerUnit(delta: real, limit: int, e: int)
    requires IsUnit(delta, Some(limit), e)
    ensures 0 - e <= limit
  {
    if 0 - e > limit && e + 1 < 0 - limit {
      Pow10Monotone(e + 1, 0 - limit);
    }
    hide Pow10;
  }

  lemma NiceIsWhole(delta: real, maxDec: Option<int>, e: int, size: real, dec: int)
    requires 0.0 < delta && IsNice(delta, maxDec, e, size, dec)
    ensures forall places: nat :: dec <= places ==> WholeUnits(size, Pow10(places))
  {
    HalfStep(0 - e);
    hide Pow10, WholeUnits, IsUnit;
    var u := Pow10(e);
    var mantissa :=
      if size == u then 1 else if size == 2.0 * u then 2 else if size == 5.0 * u then 5
      else if size == 10.0 * u then 10 else 25;
    assert size == mantissa as real * Pow10(0 - dec);
    forall places: nat | dec <= places
      ensures WholeUnits(size, Pow10(places))
    {
      WholeMantissa(mantissa, dec, places, size);
    }
  }

  /** The mantissa chosen from norm, scaled by its unit. */
  lemma NiceMantissa(delta: real, maxDec: Option<int>, e: int, norm: real, mantissa: real, dec: int)
    requires norm * Pow10(e) == delta && IsUnit(delta, maxDec, e)
    requires norm < 1.5 ==> mantissa == 1.0
    requires 1.5 <= norm < 3.0 ==> mantissa == if 2.25 < norm && HalvesAllowed(maxDec, e) then 2.5 else 2.0
    requires 3.0 <= norm < 7.5 ==> mantissa == 5.0
    requires 7.5 <= norm ==> mantissa == 10.0
    requires dec == if mantissa == 2.5 then 1 - e else 0 - e
    ensures IsNice(delta, maxDec, e, mantissa * Pow10(e), dec)
  {
    hide Pow10, IsUnit;
    var u := Pow10(e);
    CountedIn(norm, u, delta, 1.5);
    CountedIn(norm, u, delta, 2.25);
    CountedIn(norm, u, delta, 3.0);
    CountedIn(norm, u, delta, 7.5);
  }

  /** How the options and the nice size make the setup. */
  ghost predicate SetUpFrom(opts: TickOptions, t: TickSetup, e: int, nice: real, dec: int) {
    && IsNice(t.delta, opts.tickDecimals, e, nice, dec)
    && t.tickSize == (if opts.tickSize.Some? && opts.tickSize.value != 0.0 then opts.tickSize.value
                      else if opts.minTickSize.Some? then Larger(nice, opts.minTickSize.value) else nice)
    && (opts.tickDecimals == None ==> t.tickDecimals == if dec < 0 then 0 else dec)
  }

  /** Chooses the distance between ticks. A computed size is more than two thirds of the ideal distance
      delta, at most five thirds of it unless tickDecimals limits the precision, and a whole number of
      units of the last decimal place shown. */
  method SetupTickGeneration(min: real, max: real, opts: TickOptions) returns (t: TickSetup)
    requires min < max && 0.0 < opts.noTicks
    ensures t.delta * opts.noTicks == max - min && 0.0 < t.delta
    ensures exists e, nice, dec :: SetUpFrom(opts, t, e, nice, dec)
    ensures opts.tickSize.Some? && opts.tickSize.value != 0.0 ==> t.tickSize == opts.tickSize.value
    ensures opts.tickSize == None || opts.tickSize.value == 0.0 ==>
              && 3.0 * t.tickSize > 2.0 * t.delta
              && (opts.minTickSize.Some? ==> opts.minTickSize.value <= t.tickSize)
    ensures Computed(opts, t.tickSize) ==> WholeUnits(t.tickSize, Pow10(t.tickDecimals))
    ensures Computed(opts, t.tickSize) && opts.tickDecimals == None ==> 3.0 * t.tickSize <= 5.0 * t.delta
    ensures opts.tickDecimals.Some? ==>
              t.tickDecimals == if opts.tickDecimals.value < 0 then 0 else opts.tickDecimals.value
  {
    hide Pow10, WholeUnits, IsNice;
    QuotientSign(max - min, opts.noTicks);
    QuotientTimes(max - min, opts.noTicks);
    var delta := (max - min) / opts.noTicks;
    var maxDec := opts.tickDecimals;
    var size, dec := NiceSize(delta, maxDec);
    ghost var e, nice :| nice == size && IsNice(delta, maxDec, e, nice, dec);
    if opts.minTickSize.Some? && size < opts.minTickSize.value {
      size := opts.minTickSize.value;
    }
    var places := if maxDec.Some? then maxDec.value else dec;
    t := TickSetup(delta, if places < 0 then 0 else places,
                   if opts.tickSize.Some? && opts.tickSize.value != 0.0 then opts.tickSize.value else size);
    assert SetUpFrom(opts, t, e, nice, dec);
  }
}
