/** Sampling of the Hermite splines, and the merge of a sampled top curve with a sampled bottom curve
    (curvedLines.js). The source alternates abscissae and ordinates in one array; a sample is a pair here. */
module CurveSamples {
  import opened Hermite
  import opened Reals

  type Sample = (real, real)

  /** Abscissa of sample k of segment i, with `rate` steps per segment. */
  function Abscissa(px: seq<real>, rate: real, i: nat, k: nat): real
    requires i + 1 < |px| && 0.0 < rate
  {
    px[i] + k as real * ((px[i + 1] - px[i]) / rate)
  }

  /** Step k of a segment still lies before its right end exactly while k is below the rate. */
  lemma StepBeforeEnd(l: real, rate: real, k: nat)
    requires 0.0 < l && 0.0 < rate
    ensures k as real * (l / rate) < l <==> k as real < rate
    ensures k as real * (l / rate) < (k + 1) as real * (l / rate)
  {
  }

  ghost function SegmentSamples(px: seq<real>, c: Cubic, rate: real, i: nat, count: nat): (s: seq<Sample>)
    requires i + 1 < |px| && 0.0 < rate
    ensures |s| == count
  {
    seq(count, k requires 0 <= k < count => (Abscissa(px, rate, i, k), Eval(c, Abscissa(px, rate, i, k))))
  }

  /** All samples of the first n segments. */
  ghost function Samples(px: seq<real>, splines: seq<Cubic>, rate: real, n: nat): (s: seq<Sample>)
    requires n <= |splines| < |px| && 0.0 < rate
    ensures |s| == n * Ceiling(rate)
  {
    if n == 0 then []
    else Samples(px, splines, rate, n - 1) + SegmentSamples(px, splines[n - 1], rate, n - 1, Ceiling(rate))
  }

  ghost function CurvePoints(px: seq<real>, py: seq<real>, splines: seq<Cubic>, rate: real): seq<Sample>
    requires Knots(px, py) && |splines| == |px| - 1 && 0.0 < rate
  {
    Samples(px, splines, rate, |splines|) + [(px[|px| - 1], py[|py| - 1])]
  }

  method CalculateSplineCurvePoints(px: seq<real>, py: seq<real>, monotonicFit: bool, tension: real, rate: real)
    returns (result: seq<Sample>, splines: seq<Cubic>)
    requires Knots(px, py) && 0.0 < rate
    ensures |splines| == |px| - 1
    ensures forall i: nat :: i < |splines| ==> splines[i] == SplineOf(px, py, monotonicFit, tension, i)
    ensures result == CurvePoints(px, py, splines, rate)
  {
    hide Eval, SplineOf, Abscissa;
    splines := CreateHermiteSplines(px, py, monotonicFit, tension);
    result := [];
    for i := 0 to |px| - 1
      invariant result == Samples(px, splines, rate, i)
    {
      var segment := SampleSegment(px, py, splines[i], rate, i) by {
        JoinsSmoothly(px, py, monotonicFit, tension, i);
      }
      result := result + segment;
    }
    result := result + [(px[|px| - 1], py[|py| - 1])];
  }

  /** The body of the loop over segments. */
  method SampleSegment(px: seq<real>, py: seq<real>, c: Cubic, rate: real, i: nat) returns (segment: seq<Sample>)
    requires Knots(px, py) && i + 1 < |px| && 0.0 < rate
    requires Eval(c, px[i]) == py[i]
    ensures segment == SegmentSamples(px, c, rate, i, Ceiling(rate))
  {
    hide Eval;
    var xStart := px[i];
    var xEnd := px[i + 1];
    var xStep := (xEnd - xStart) / rate;
    segment := [(px[i], py[i])];
    assert Abscissa(px, rate, i, 0) == px[i];
    xStart := xStart + xStep;
    var x := xStart;
    ghost var k := 1;
    StepBeforeEnd(xEnd - px[i], rate, k);
    while x < xEnd
      invariant 1 <= k <= Ceiling(rate)
      invariant x == Abscissa(px, rate, i, k)
      invariant segment == SegmentSamples(px, c, rate, i, k)
      decreases Ceiling(rate) - k
    {
      StepBeforeEnd(xEnd - px[i], rate, k);
      segment := segment + [(x, Eval(c, x))];
      x := x + xStep;
      k := k + 1;
    }
    StepBeforeEnd(xEnd - px[i], rate, k);
  }

  /** Sample k of segment i is k steps of the rate into the segment, on its spline; the last data point ends
      the curve. */
  lemma SampleIsThere(px: seq<real>, py: seq<real>, splines: seq<Cubic>, rate: real, i: nat, k: nat)
    requires Knots(px, py) && |splines| == |px| - 1 && 0.0 < rate && i < |splines| && k < Ceiling(rate)
    ensures var s, j := CurvePoints(px, py, splines, rate), i * Ceiling(rate) + k;
            && |s| == |splines| * Ceiling(rate) + 1 && s[|s| - 1] == (px[|px| - 1], py[|py| - 1])
            && j < |s| - 1
            && (s[j].0 - px[i]) * rate == k as real * (px[i + 1] - px[i]) && s[j].1 == Eval(splines[i], s[j].0)
  {
    hide Eval, Abscissa;
    SampleInOrder(px, splines, rate, |splines|, i, k);
    StepsIn(px, rate, i, k);
  }

  lemma StepsIn(px: seq<real>, rate: real, i: nat, k: nat)
    requires i + 1 < |px| && 0.0 < rate
    ensures (Abscissa(px, rate, i, k) - px[i]) * rate == k as real * (px[i + 1] - px[i])
  {
    QuotientTimes(px[i + 1] - px[i], rate);
  }

  lemma {:induction false} SampleInOrder(px: seq<real>, splines: seq<Cubic>, rate: real, n: nat, i: nat, k: nat)
    requires i < n <= |splines| < |px| && 0.0 < rate && k < Ceiling(rate)
    ensures var j, x := i * Ceiling(rate) + k, Abscissa(px, rate, i, k);
            0 <= j < |Samples(px, splines, rate, n)| && Samples(px, splines, rate, n)[j] == (x, Eval(splines[i], x))
    decreases n
  {
    hide Eval, Abscissa;
    if i < n - 1 {
      SampleInOrder(px, splines, rate, n - 1, i, k);
    }
    IndexBelow(i, k, Ceiling(rate), n);
  }

  lemma IndexBelow(i: nat, k: nat, c: nat, n: nat)
    requires k < c && i < n
    ensures 0 <= i * c + k < n * c
    ensures i < n - 1 ==> i * c + k < (n - 1) * c
  {
    RowsBelow(i + 1, n, c);
    if i + 1 < n {
      RowsBelow(i + 1, n - 1, c);
    }
  }

  lemma RowsBelow(a: nat, b: nat, c: nat)
    requires 0 < a <= b
    ensures (a - 1) * c + c == a * c <= b * c
  {
  }

  ghost function Xs(s: seq<Sample>): seq<real> {
    seq(|s|, k requires 0 <= k < |s| => s[k].0)
  }

  // ---------------------------------------------------------------- properties of the samples

  /** The sampled abscissae do not depend on the ordinates: top and bottom are sampled at the same places. */
  lemma {:induction false} SamplesShareXs(px: seq<real>, splines: seq<Cubic>, splines': seq<Cubic>, rate: real, n: nat)
    requires n <= |splines| < |px| && n <= |splines'| < |px| && 0.0 < rate
    ensures Xs(Samples(px, splines, rate, n)) == Xs(Samples(px, splines', rate, n))
  {
    hide Eval, Abscissa;
    if n > 0 {
      SamplesShareXs(px, splines, splines', rate, n - 1);
      var a, a' := Samples(px, splines, rate, n - 1), Samples(px, splines', rate, n - 1);
      assert |a| == |Xs(a)| == |Xs(a')| == |a'|;
      forall k | 0 <= k < |a|
        ensures a[k].0 == a'[k].0
      {
        assert Xs(a)[k] == Xs(a')[k];
      }
    }
  }

  /** The abscissae strictly increase and stay below x. */
  ghost predicate XsUpTo(s: seq<Sample>, x: real) {
    && (forall a, b :: 0 <= a < b < |s| ==> s[a].0 < s[b].0)
    && (forall a :: 0 <= a < |s| ==> s[a].0 < x)
  }

  /** The ordinates follow the given direction and end at y or before. */
  ghost predicate YsUpTo(up: bool, s: seq<Sample>, y: real) {
    && (forall a, b :: 0 <= a < b < |s| ==> Ordered(up, s[a].1, s[b].1))
    && (forall a :: 0 <= a < |s| ==> Ordered(up, s[a].1, y))
  }

  ghost predicate MonotoneData(up: bool, py: seq<real>) {
    forall i :: 0 <= i < |py| - 1 ==> Ordered(up, py[i], py[i + 1])
  }

  lemma {:induction false} AbscissaeIncrease(px: seq<real>, rate: real, i: nat, k: nat, k': nat)
    requires StrictlyIncreasing(px) && i + 1 < |px| && 0.0 < rate
    requires k < k'
    ensures Abscissa(px, rate, i, k) < Abscissa(px, rate, i, k')
    decreases k'
  {
  }

  lemma AbscissaInSegment(px: seq<real>, rate: real, i: nat, k: nat)
    requires StrictlyIncreasing(px) && i + 1 < |px| && 0.0 < rate && k < Ceiling(rate)
    ensures px[i] <= Abscissa(px, rate, i, k) < px[i + 1]
    ensures k == 0 ==> Abscissa(px, rate, i, k) == px[i]
  {
    StepBeforeEnd(px[i + 1] - px[i], rate, k);
    if k > 0 {
      AbscissaeIncrease(px, rate, i, 0, k);
    }
  }

  lemma SegmentXs(px: seq<real>, c: Cubic, rate: real, i: nat)
    requires StrictlyIncreasing(px) && i + 1 < |px| && 0.0 < rate
    ensures var s := SegmentSamples(px, c, rate, i, Ceiling(rate));
            XsUpTo(s, px[i + 1]) && forall k {:trigger s[k]} :: 0 <= k < |s| ==> px[i] <= s[k].0
  {
    hide Eval, Abscissa;
    var s := SegmentSamples(px, c, rate, i, Ceiling(rate));
    forall a: nat, b: nat | a < b < |s|
      ensures s[a].0 < s[b].0
    {
      AbscissaeIncrease(px, rate, i, a, b);
    }
    forall k: nat | k < |s|
      ensures px[i] <= s[k].0 < px[i + 1]
    {
      AbscissaInSegment(px, rate, i, k);
    }
  }

  lemma SegmentYs(px: seq<real>, py: seq<real>, tension: real, rate: real, i: nat, up: bool)
    requires Knots(px, py) && i + 1 < |px| && 0.0 < rate && Ordered(up, py[i], py[i + 1])
    ensures var s := SegmentSamples(px, SplineOf(px, py, true, tension, i), rate, i, Ceiling(rate));
            && YsUpTo(up, s, py[i + 1])
            && forall k {:trigger s[k]} :: 0 <= k < |s| ==> Ordered(up, py[i], s[k].1)
  {
    hide Eval, SplineOf, Abscissa;
    var c := SplineOf(px, py, true, tension, i);
    var s := SegmentSamples(px, c, rate, i, Ceiling(rate));
    forall a: nat, b: nat | a < b < |s|
      ensures Ordered(up, s[a].1, s[b].1)
    {
      AbscissaInSegment(px, rate, i, a);
      AbscissaInSegment(px, rate, i, b);
      AbscissaeIncrease(px, rate, i, a, b);
      SegmentMonotone(px, py, tension, i, up, s[a].0, s[b].0);
    }
    forall k: nat | k < |s|
      ensures Ordered(up, py[i], s[k].1) && Ordered(up, s[k].1, py[i + 1])
    {
      AbscissaInSegment(px, rate, i, k);
      SegmentMonotone(px, py, tension, i, up, s[k].0, s[k].0);
    }
  }

  lemma {:induction false} SamplesIncrease(px: seq<real>, splines: seq<Cubic>, rate: real, n: nat)
    requires StrictlyIncreasing(px) && 0.0 < rate && n <= |splines| == |px| - 1
    ensures XsUpTo(Samples(px, splines, rate, n), px[n])
  {
    hide Eval, Abscissa;
    if n > 0 {
      SamplesIncrease(px, splines, rate, n - 1);
      SegmentXs(px, splines[n - 1], rate, n - 1);
    }
  }

  lemma {:induction false} SamplesMonotone(px: seq<real>, py: seq<real>, tension: real, rate: real,
                                           splines: seq<Cubic>, n: nat, up: bool)
    requires Knots(px, py) && 0.0 < rate && MonotoneData(up, py)
    requires n <= |splines| == |px| - 1
    requires forall i: nat :: i < |splines| ==> splines[i] == SplineOf(px, py, true, tension, i)
    ensures YsUpTo(up, Samples(px, splines, rate, n), py[n])
  {
    hide Eval, SplineOf, Abscissa;
    if n > 0 {
      SamplesMonotone(px, py, tension, rate, splines, n - 1, up);
      SegmentYs(px, py, tension, rate, n - 1, up);
    }
  }

  /** One sample per step and segment plus the last point, at strictly increasing abscissae. */
  lemma CurveIncreases(px: seq<real>, py: seq<real>, splines: seq<Cubic>, rate: real)
    requires Knots(px, py) && 0.0 < rate && |splines| == |px| - 1
    ensures |CurvePoints(px, py, splines, rate)| == (|px| - 1) * Ceiling(rate) + 1
    ensures StrictlyIncreasing(Xs(CurvePoints(px, py, splines, rate)))
  {
    hide Samples;
    SamplesIncrease(px, splines, rate, |splines|);
  }

  /** Top and bottom curve of one series are sampled at the same abscissae. */
  lemma CurvesShareXs(px: seq<real>, py: seq<real>, py': seq<real>, splines: seq<Cubic>, splines': seq<Cubic>,
                      rate: real)
    requires Knots(px, py) && Knots(px, py') && 0.0 < rate && |splines| == |splines'| == |px| - 1
    ensures Xs(CurvePoints(px, py, splines, rate)) == Xs(CurvePoints(px, py', splines', rate))
  {
    hide Samples;
    SamplesShareXs(px, splines, splines', rate, |splines|);
    var s, s' := Samples(px, splines, rate, |splines|), Samples(px, splines', rate, |splines|);
    forall k | 0 <= k < |s|
      ensures s[k].0 == s'[k].0
    {
      assert Xs(s)[k] == Xs(s')[k];
    }
  }

  /** With monotonicFit, the sampled curve of monotone data is monotone. */
  lemma CurveMonotone(px: seq<real>, py: seq<real>, tension: real, rate: real, splines: seq<Cubic>, up: bool)
    requires Knots(px, py) && 0.0 < rate && MonotoneData(up, py) && |splines| == |px| - 1
    requires forall i: nat :: i < |splines| ==> splines[i] == SplineOf(px, py, true, tension, i)
    ensures YsUpTo(up, CurvePoints(px, py, splines, rate), py[|py| - 1])
  {
    hide Samples, SplineOf;
    SamplesMonotone(px, py, tension, rate, splines, |splines|, up);
  }
}
