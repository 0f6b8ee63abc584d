/** What the gradients of the default curve are (curvedLines.js:250-277), read off the splines themselves. */
module SplineGradients {
  import opened Hermite
  import opened Reals

  /** The slope with which the curve passes data point k, which lies on segment k or ends the last one. */
  ghost function SlopeAt(px: seq<real>, py: seq<real>, monotonicFit: bool, tension: real, k: nat): real
    requires Knots(px, py) && k < |px|
  {
    if k + 1 < |px| then EvalSlope(SplineOf(px, py, monotonicFit, tension, k), px[k])
    else EvalSlope(SplineOf(px, py, monotonicFit, tension, k - 1), px[k])
  }

  lemma SlopeIsGradient(px: seq<real>, py: seq<real>, monotonicFit: bool, tension: real, k: nat)
    requires Knots(px, py) && k < |px|
    ensures SlopeAt(px, py, monotonicFit, tension, k) == Gradient(px, py, monotonicFit, tension, k)
    ensures k > 0 ==>
              EvalSlope(SplineOf(px, py, monotonicFit, tension, k - 1), px[k])
              == SlopeAt(px, py, monotonicFit, tension, k)
  {
    hide SplineOf, EvalSlope, Gradient;
    if k + 1 < |px| {
      JoinsSmoothly(px, py, monotonicFit, tension, k);
    }
    if k > 0 {
      JoinsSmoothly(px, py, monotonicFit, tension, k - 1);
    }
  }

  /** At both ends the curve leaves along the line to the neighbouring data point. */
  lemma EndsFollowChords(px: seq<real>, py: seq<real>, monotonicFit: bool, tension: real)
    requires Knots(px, py)
    ensures SlopeAt(px, py, monotonicFit, tension, 0) * (px[1] - px[0]) == py[1] - py[0]
    ensures var n := |px| - 1;
            SlopeAt(px, py, monotonicFit, tension, n) * (px[n] - px[n - 1]) == py[n] - py[n - 1]
  {
    hide SlopeAt, Chord;
    SlopeIsGradient(px, py, monotonicFit, tension, 0);
    SlopeIsGradient(px, py, monotonicFit, tension, |px| - 1);
    ChordSpan(px, py, 0);
    ChordSpan(px, py, |px| - 2);
  }

  /** Without monotonicFit it passes an inner data point parallel to the line between its two neighbours, up
      to the factor tension. */
  lemma CardinalSlope(px: seq<real>, py: seq<real>, tension: real, k: nat)
    requires Knots(px, py) && 0 < k < |px| - 1
    ensures SlopeAt(px, py, false, tension, k) * (px[k + 1] - px[k - 1]) == tension * (py[k + 1] - py[k - 1])
  {
    SlopeIsGradient(px, py, false, tension, k);
    hide SlopeAt;
    QuotientTimes(tension * (py[k + 1] - py[k - 1]), px[k + 1] - px[k - 1]);
  }

  /** m is the weighted harmonic mean of the slopes of two segments with lengths l0 and l1. */
  ghost predicate IsHarmonicMean(l0: real, l1: real, s0: real, s1: real, m: real) {
    s0 != 0.0 && s1 != 0.0 && m != 0.0 && (2.0 * l1 + l0) / s0 + (l1 + 2.0 * l0) / s1 == 3.0 * (l0 + l1) / m
  }

  /** With monotonicFit it is level at a data point where the data turn or rest, and elsewhere the slope is
      the weighted harmonic mean of the slopes of the two segments. */
  lemma HarmonicSlope(px: seq<real>, py: seq<real>, tension: real, k: nat, s0: real, s1: real)
    requires Knots(px, py) && 0 < k < |px| - 1
    requires s0 * (px[k] - px[k - 1]) == py[k] - py[k - 1] && s1 * (px[k + 1] - px[k]) == py[k + 1] - py[k]
    ensures if (py[k] - py[k - 1]) * (py[k + 1] - py[k]) <= 0.0 then SlopeAt(px, py, true, tension, k) == 0.0
            else IsHarmonicMean(px[k] - px[k - 1], px[k + 1] - px[k], s0, s1, SlopeAt(px, py, true, tension, k))
  {
    hide SlopeAt, FritschCarlson, IsHarmonicMean, Gradient;
    SlopeIsGradient(px, py, true, tension, k);
    InnerGradient(px, py, tension, k, s0, s1);
    SignOfSlopes(px[k] - px[k - 1], px[k + 1] - px[k], s0, s1, py[k] - py[k - 1], py[k + 1] - py[k]);
    HarmonicMean(px[k] - px[k - 1], px[k + 1] - px[k], s0, s1);
  }

  lemma InnerGradient(px: seq<real>, py: seq<real>, tension: real, k: nat, s0: real, s1: real)
    requires Knots(px, py) && 0 < k < |px| - 1
    requires s0 * (px[k] - px[k - 1]) == py[k] - py[k - 1] && s1 * (px[k + 1] - px[k]) == py[k + 1] - py[k]
    ensures Gradient(px, py, true, tension, k) == FritschCarlson(px[k] - px[k - 1], px[k + 1] - px[k], s0, s1)
  {
    QuotientIs(s0, px[k] - px[k - 1], py[k] - py[k - 1]);
    QuotientIs(s1, px[k + 1] - px[k], py[k + 1] - py[k]);
    hide FritschCarlson;
  }

  lemma SignOfSlopes(l0: real, l1: real, s0: real, s1: real, rise0: real, rise1: real)
    requires 0.0 < l0 && 0.0 < l1 && s0 * l0 == rise0 && s1 * l1 == rise1
    ensures rise0 * rise1 <= 0.0 <==> s1 * s0 <= 0.0
  {
    var l := l0 * l1;
    PositiveProduct(l0, l1);
    assert rise0 * rise1 == s1 * s0 * l;
    if 0.0 < s1 * s0 {
      PositiveProduct(s1 * s0, l);
    }
    FactorSign(s1 * s0, l);
  }

  lemma HarmonicMean(l0: real, l1: real, s0: real, s1: real)
    requires 0.0 < l0 && 0.0 < l1
    ensures if s1 * s0 <= 0.0 then FritschCarlson(l0, l1, s0, s1) == 0.0
            else IsHarmonicMean(l0, l1, s0, s1, FritschCarlson(l0, l1, s0, s1))
  {
    if 0.0 < s1 * s0 {
      DenominatorSign(2.0 * l1 + l0, l1 + 2.0 * l0, s0, s1);
      var sum := (2.0 * l1 + l0) / s0 + (l1 + 2.0 * l0) / s1;
      assert FritschCarlson(l0, l1, s0, s1) == 3.0 * (l0 + l1) / sum;
      hide FritschCarlson;
      Reciprocal(3.0 * (l0 + l1), sum);
    }
  }

  lemma Reciprocal(u: real, d: real)
    requires u != 0.0 && d != 0.0
    ensures u / d != 0.0 && u / (u / d) == d
  {
    QuotientTimes(u, d);
    QuotientIs(d, u / d, u);
  }

  // ---------------------------------------------------------------- data on a line

  ghost predicate OnLine(px: seq<real>, py: seq<real>, slope: real, offset: real)
    requires |px| == |py|
  {
    forall k {:trigger px[k]} :: 0 <= k < |px| ==> py[k] == slope * px[k] + offset
  }

  /** Data on a line give back that line everywhere, with monotonicFit and with tension 1. */
  lemma LinesAreKept(px: seq<real>, py: seq<real>, monotonicFit: bool, tension: real, slope: real, offset: real,
                     i: nat, x: real)
    requires Knots(px, py) && i + 1 < |px| && OnLine(px, py, slope, offset)
    requires monotonicFit || tension == 1.0
    ensures Eval(SplineOf(px, py, monotonicFit, tension, i), x) == slope * x + offset
  {
    hide Eval;
    GradientOfLine(px, py, monotonicFit, tension, slope, offset, i);
    GradientOfLine(px, py, monotonicFit, tension, slope, offset, i + 1);
    ChordOfLine(px, py, slope, offset, i);
    hide Gradient, Chord;
    StraightCubic(px[i], py[i], px[i + 1] - px[i], slope, x);
    assert py[i] + slope * (x - px[i]) == slope * x + offset;
  }

  lemma StraightCubic(x: real, y: real, l: real, s: real, at: real)
    requires 0.0 < l
    ensures Eval(HermiteCubic(x, y, l, s, s, s), at) == y + s * (at - x)
  {
    var c := HermiteCubic(x, y, l, s, s, s);
    assert c.c1 == 0.0 && c.c2 == 0.0;
  }

  lemma ChordOfLine(px: seq<real>, py: seq<real>, slope: real, offset: real, i: nat)
    requires Knots(px, py) && i + 1 < |px| && OnLine(px, py, slope, offset)
    ensures Chord(px, py, i) == slope
  {
    assert py[i + 1] == slope * px[i + 1] + offset && py[i] == slope * px[i] + offset;
    QuotientIs(slope, px[i + 1] - px[i], py[i + 1] - py[i]);
  }

  lemma GradientOfLine(px: seq<real>, py: seq<real>, monotonicFit: bool, tension: real, slope: real, offset: real,
                       k: nat)
    requires Knots(px, py) && k < |px| && OnLine(px, py, slope, offset)
    requires monotonicFit || tension == 1.0
    ensures Gradient(px, py, monotonicFit, tension, k) == slope
  {
    hide FritschCarlson, Chord;
    if k + 1 < |px| {
      ChordOfLine(px, py, slope, offset, k);
    }
    if k > 0 {
      ChordOfLine(px, py, slope, offset, k - 1);
    }
    if 0 < k < |px| - 1 {
      if monotonicFit {
        EqualSlopes(px[k] - px[k - 1], px[k + 1] - px[k], slope);
      } else {
        assert py[k + 1] == slope * px[k + 1] + offset && py[k - 1] == slope * px[k - 1] + offset;
        QuotientIs(slope, px[k + 1] - px[k - 1], py[k + 1] - py[k - 1]);
      }
    }
  }

  lemma EqualSlopes(l0: real, l1: real, s: real)
    requires 0.0 < l0 && 0.0 < l1
    ensures FritschCarlson(l0, l1, s, s) == s
  {
    if 0.0 < s * s {
      var common := l1 + l0;
      DenominatorSign(common + l1, common + l0, s, s);
      QuotientTimes(common + l1, s);
      QuotientTimes(common + l0, s);
      var sum := (common + l1) / s + (common + l0) / s;
      assert sum * s == 3.0 * common;
      QuotientIs(s, sum, 3.0 * common);
    }
  }
}
