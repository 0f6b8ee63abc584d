/** The default tick generator of flot (jquery.flot.js) and the snapping of a range to its ticks. */
module TickGenerator {
  import opened Options
  import opened Powers
  import opened Reals
  import opened Ticks

  function FloorInBase(n: real, size: real): real
    requires size != 0.0
  {
    size * (n / size).Floor as real
  }

  /** The greatest multiple of a positive size that is at most n. */
  lemma FloorInBaseIs(n: real, size: real)
    requires 0.0 < size
    ensures n - size < FloorInBase(n, size) <= n
    ensures exists k: int {:trigger TickAt(0.0, size, k)} :: FloorInBase(n, size) == TickAt(0.0, size, k)
  {
    var q := n / size;
    assert FloorInBase(n, size) == TickAt(0.0, size, q.Floor);
    QuotientTimes(n, size);
    FloorTimes(q, q.Floor as real, size, n);
  }

  lemma FloorTimes(q: real, f: real, size: real, n: real)
    requires 0.0 < size && q * size == n && f <= q < f + 1.0
    ensures n - size < size * f <= n
  {
    FactorAbove(f, q, size, n);
    FactorBelow(f, q - 1.0, size, n);
  }

  lemma FactorAbove(f: real, q: real, size: real, n: real)
    requires 0.0 < size && q * size == n && f <= q
    ensures size * f <= n
  {
  }

  lemma FactorBelow(f: real, g: real, size: real, n: real)
    requires 0.0 < size && (g + 1.0) * size == n && g < f
    ensures n - size < size * f
  {
  }

  /** The k-th tick. */
  function TickAt(start: real, size: real, k: int): real {
    start + k as real * size
  }

  ghost predicate ReachesMax(start: real, size: real, max: real, k: nat) {
    max <= TickAt(start, size, k)
  }

  /** The generator's loop has an end exactly for a positive tick size or a first tick already at or above
      max: with another negative tickSize option it would go on for ever. */
  lemma GeneratorEndsExactlyWhen(min: real, max: real, size: real)
    requires size != 0.0
    ensures (exists k :: ReachesMax(FloorInBase(min, size), size, max, k))
       <==> 0.0 < size || max <= FloorInBase(min, size)
  {
    var start := FloorInBase(min, size);
    hide FloorInBase;
    if max <= start {
      assert ReachesMax(start, size, max, 0);
    } else if 0.0 < size {
      var k := StepsToMax(start, size, max);
    } else {
      forall k: nat
        ensures !ReachesMax(start, size, max, k)
      {
        NonnegativeProduct(k as real, -size);
        assert k as real * size == -(k as real * -size);
      }
    }
  }

  /** On [1, 10] the generator never ends for a tickSize of -1, and ends at once for -100. */
  lemma NegativeTickSizeCanFail()
    ensures forall k :: !ReachesMax(FloorInBase(1.0, -1.0), -1.0, 10.0, k)
    ensures ReachesMax(FloorInBase(1.0, -100.0), -100.0, 10.0, 0)
  {
    assert 1.0 / -1.0 == -1.0;
    assert FloorInBase(1.0, -1.0) == 1.0;
    assert 1.0 / -100.0 == -0.01;
    assert FloorInBase(1.0, -100.0) == 100.0;
    GeneratorEndsExactlyWhen(1.0, 10.0, -1.0);
  }

  lemma StepsToMax(start: real, size: real, max: real) returns (k: nat)
    requires 0.0 < size
    ensures ReachesMax(start, size, max, k)
  {
    var q := (max - start) / size;
    QuotientTimes(max - start, size);
    k := if q.Floor < 0 then 0 else q.Floor + 1;
    NonnegativeProduct(k as real - q, size);
    assert (k as real - q) * size == k as real * size - (max - start);
  }

  lemma TicksIncrease(start: real, size: real, i: int, j: int)
    requires 0.0 < size && i < j
    ensures TickAt(start, size, i) + size <= TickAt(start, size, j)
  {
    NonnegativeProduct((j - i - 1) as real, size);
    assert (j - i - 1) as real * size == j as real * size - i as real * size - size;
  }

  /** Evenly spaced ticks that cover the range: the first is the last multiple of size that is not above
      min, and the last is the only one at or above max. */
  ghost predicate Covers(ticks: seq<real>, min: real, max: real, size: real)
    requires 0.0 < size
  {
    && |ticks| > 0
    && ticks[0] == FloorInBase(min, size)
    && (forall k :: 0 <= k < |ticks| ==> ticks[k] == TickAt(ticks[0], size, k))
    && (forall k :: 0 <= k < |ticks| - 1 ==> ticks[k] < max)
    && max <= ticks[|ticks| - 1]
  }

  /** The generator, for every tick size for which it has an end. */
  method GenerateTicks(min: real, max: real, size: real) returns (ticks: seq<real>)
    requires size != 0.0 && (0.0 < size || max <= FloorInBase(min, size))
    ensures 0.0 < size ==> Covers(ticks, min, max, size)
    ensures size < 0.0 ==> ticks == [FloorInBase(min, size)]
  {
    var start := FloorInBase(min, size);
    ticks := [];
    var i := 0;
    var v, prev: Option<real> := None, None;
    var more := true;
    ghost var last: nat := 0;
    if 0.0 < size {
      last := StepsToMax(start, size, max);
    }
    hide FloorInBase;
    while more
      invariant i == |ticks|
      invariant forall k :: 0 <= k < i ==> ticks[k] == TickAt(start, size, k)
      invariant forall k :: 0 <= k && k + 1 < i ==> ticks[k] < max
      invariant i > 0 ==> v == Some(ticks[i - 1]) && (more <==> ticks[i - 1] < max)
      invariant i == 0 ==> v == None && more
      invariant i <= last + 1
      decreases last + 1 - i
    {
      prev := v;
      v := Some(start + i as real * size);
      ticks := ticks + [v.value];
      i := i + 1;
      more := v.value < max && v != prev;
    }
  }

  /** The generator makes fewer than (max - min) / size + 3 ticks. */
  lemma TickCount(ticks: seq<real>, min: real, max: real, size: real)
    requires 0.0 < size && Covers(ticks, min, max, size)
    ensures |ticks| > 1 ==> (|ticks| - 3) as real * size < max - min
  {
    if |ticks| > 1 {
      var k := |ticks| - 2;
      FloorInBaseIs(min, size);
      assert ticks[k] == TickAt(ticks[0], size, k);
      assert (k - 1) as real * size == k as real * size - size;
    }
  }

  /** From (count - 3) * size < noTicks * delta and size > 2/3 delta. */
  lemma CountBound(excess: int, size: real, delta: real, noTicks: real)
    requires 0.0 < delta && 0.0 < noTicks
    requires 3.0 * size > 2.0 * delta
    requires excess as real * size < delta * noTicks
    ensures excess as real < 1.5 * noTicks
  {
  }

  /** A number of ticks, none or absent (setTicks with oticks null or a number, 1823-1826): without a
      tickSize option there are fewer than one and a half times the requested number plus three. */
  method SetTicks(min: real, max: real, opts: TickOptions) returns (t: TickSetup, ticks: seq<real>)
    requires min < max && 0.0 < opts.noTicks
    requires opts.tickSize.Some? && opts.tickSize.value < 0.0 ==> max <= FloorInBase(min, opts.tickSize.value)
    ensures 0.0 < t.tickSize ==> Covers(ticks, min, max, t.tickSize)
    ensures 0.0 < t.tickSize <==> (opts.tickSize.Some? ==> 0.0 <= opts.tickSize.value)
    ensures t.tickSize < 0.0 ==> ticks == [FloorInBase(min, t.tickSize)]
    ensures opts.tickSize == None || opts.tickSize.value == 0.0 ==> |ticks| as real < 1.5 * opts.noTicks + 3.0
    ensures Computed(opts, t.tickSize) ==> forall k :: 0 <= k < |ticks| ==> WholeUnits(ticks[k], Pow10(t.tickDecimals))
  {
    hide Pow10, WholeUnits;
    t := SetupTickGeneration(min, max, opts);
    ticks := GenerateTicks(min, max, t.tickSize);
    if 0.0 < t.tickSize {
      TickCount(ticks, min, max, t.tickSize);
    }
    if opts.tickSize == None || opts.tickSize.value == 0.0 {
      if |ticks| > 1 {
        CountBound(|ticks| - 3, t.tickSize, t.delta, opts.noTicks);
      }
    }
    if 0.0 < t.tickSize && WholeUnits(t.tickSize, Pow10(t.tickDecimals)) {
      forall k | 0 <= k < |ticks|
        ensures WholeUnits(ticks[k], Pow10(t.tickDecimals))
      {
        TickIsWhole(min, t.tickSize, k, Pow10(t.tickDecimals));
      }
    }
  }

  /** Every tick is a whole number of units when the tick size is. */
  lemma TickIsWhole(min: real, size: real, k: nat, scale: real)
    requires 0.0 < size && WholeUnits(size, scale)
    ensures WholeUnits(TickAt(FloorInBase(min, size), size, k), scale)
  {
    var f, w := (min / size).Floor, (size * scale).Floor;
    WholeMultiple(f, k, size, scale, w, TickAt(FloorInBase(min, size), size, k));
  }

  lemma WholeMultiple(f: int, k: int, size: real, scale: real, w: int, v: real)
    requires size * scale == w as real
    requires v == size * f as real + k as real * size
    ensures WholeUnits(v, scale)
  {
    SumTimes(f as real, k as real, size, scale, v);
    RealProduct(f + k, w);
    var n := (f + k) * w;
    assert v * scale == n as real;
  }

  lemma SumTimes(f: real, k: real, size: real, scale: real, v: real)
    requires v == size * f + k * size
    ensures v * scale == (f + k) * (size * scale)
  {
  }

  lemma RealProduct(a: int, b: int)
    ensures (a * b) as real == a as real * b as real
  {
  }

  // ---------------------------------------------------------------- snapRangeToTicks

  /** Snapping only widens the range, by less than one tick on each side, and never moves a limit that
      the options fix; a range with two free limits and a margin snaps onto its first and last tick. */
  method SnapRangeToTicks(opts: AxisOptions, min: real, max: real, ticks: seq<real>, ghost size: real)
    returns (min': real, max': real)
    requires 0.0 < size && min < max && Covers(ticks, min, max, size)
    ensures min - size < min' <= min && max <= max' < max + size
    ensures opts.min.Some? ==> min' == min
    ensures opts.max.Some? ==> max' == max
    ensures opts.autoscaleMargin.Some? && opts.autoscaleMargin.value != 0.0 ==>
              && (opts.min == None ==> min' == ticks[0])
              && (opts.max == None ==> max' == ticks[|ticks| - 1])
  {
    FloorInBaseIs(min, size);
    min', max' := min, max;
    if opts.autoscaleMargin.Some? && opts.autoscaleMargin.value != 0.0 && |ticks| > 0 {
      if opts.min == None {
        min' := Smaller(min', ticks[0]);
      }
      LastTick(ticks, min, max, size);
      if opts.max == None && |ticks| > 1 {
        max' := Larger(max', ticks[|ticks| - 1]);
      }
    }
  }

  lemma LastTick(ticks: seq<real>, min: real, max: real, size: real)
    requires 0.0 < size && min < max && Covers(ticks, min, max, size)
    ensures |ticks| > 1 && ticks[|ticks| - 1] < max + size
  {
    FloorInBaseIs(min, size);
    assert ticks[0] == TickAt(ticks[0], size, 0);
    var last := |ticks| - 1;
    assert ticks[last] == TickAt(ticks[0], size, last);
    if last > 0 {
      assert ticks[last - 1] == TickAt(ticks[0], size, last - 1);
      assert (last - 1) as real * size == last as real * size - size;
    }
  }

  /** A range snapped at both ends is its own snapped range: its ticks are the ticks it was snapped to. */
  lemma SnappedIsStable(ticks: seq<real>, min: real, max: real, size: real)
    requires 0.0 < size && min < max && Covers(ticks, min, max, size)
    ensures Covers(ticks, ticks[0], ticks[|ticks| - 1], size)
  {
    var f := (min / size).Floor;
    QuotientIs(f as real, size, ticks[0]);
    var last := |ticks| - 1;
    assert ticks[last] == TickAt(ticks[0], size, last);
    forall k | 0 <= k < last
      ensures ticks[k] < ticks[last]
    {
      TicksIncrease(ticks[0], size, k, last);
    }
  }
}
