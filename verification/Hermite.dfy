/** The default curve of curvedLines.js: one cubic Hermite spline per segment, with cardinal or
    Fritsch-Carlson gradients, sampled a fixed number of times per segment.

    A data point of the source occupies `pointsize` slots of a flat array; here the abscissae px and the
    ordinates py (slot 1 for the top curve, slot 2 for the bottom) are separate sequences. */
module Hermite {
  import opened Reals

  ghost predicate Knots(px: seq<real>, py: seq<real>) {
    2 <= |px| == |py| && StrictlyIncreasing(px)
  }

  // ---------------------------------------------------------------- gradients

  function Chord(px: seq<real>, py: seq<real>, i: nat): real
    requires |px| == |py| && i + 1 < |px| && px[i] != px[i + 1]
  {
    (py[i + 1] - py[i]) / (px[i + 1] - px[i])
  }

  /** Cardinal gradient; the neighbours of the data point are (x0, y0) and (x2, y2). */
  function Cardinal(tension: real, x0: real, x2: real, y0: real, y2: real): real
    requires x0 != x2
  {
    tension * (y2 - y0) / (x2 - x0)
  }

  /** The gradient between two segments with lengths l0, l1 and slopes s0, s1. */
  function FritschCarlson(l0: real, l1: real, s0: real, s1: real): real
    requires 0.0 < l0 && 0.0 < l1
  {
    if s1 * s0 <= 0.0 then 0.0
    else
      var common := l1 + l0;
      DenominatorSign(common + l1, common + l0, s0, s1);
      3.0 * common / ((common + l1) / s0 + (common + l0) / s1)
  }

  lemma DenominatorSign(w0: real, w1: real, s0: real, s1: real)
    requires 0.0 < w0 && 0.0 < w1 && 0.0 < s1 * s0
    ensures s0 != 0.0 && s1 != 0.0
    ensures 0.0 < s0 ==> 0.0 < s1 && 0.0 < w0 / s0 && 0.0 < w1 / s1
    ensures s0 < 0.0 ==> s1 < 0.0 && w0 / s0 < 0.0 && w1 / s1 < 0.0
  {
  }

  /** m lies between zero and three times the slope s. */
  ghost predicate Tame(m: real, s: real) {
    (0.0 <= s ==> 0.0 <= m <= 3.0 * s) && (s <= 0.0 ==> 3.0 * s <= m <= 0.0)
  }

  lemma FritschCarlsonPositive(l0: real, l1: real, s0: real, s1: real)
    requires 0.0 < l0 && 0.0 < l1 && 0.0 < s0 && 0.0 < s1
    ensures 0.0 < FritschCarlson(l0, l1, s0, s1) < 3.0 * s0
    ensures FritschCarlson(l0, l1, s0, s1) < 3.0 * s1
  {
    var common := l1 + l0;
    var w0, w1 := common + l1, common + l0;
    assert 0.0 < s1 * s0;
    DenominatorSign(w0, w1, s0, s1);
    var p, q := w0 / s0, w1 / s1;
    QuotientTimes(w0, s0);
    QuotientTimes(w1, s1);
    QuotientSign(3.0 * common, p + q);
    var m := 3.0 * common / (p + q);
    QuotientTimes(3.0 * common, p + q);
    HarmonicBound(m, p, q, s0, w0, common);
    HarmonicBound(m, q, p, s1, w1, common);
  }

  lemma HarmonicBound(m: real, p: real, q: real, s: real, w: real, common: real)
    requires 0.0 < p && 0.0 < q && 0.0 < s && common < w
    requires p * s == w && m * (p + q) == 3.0 * common
    ensures m < 3.0 * s
  {
  }

  lemma FritschCarlsonNegates(l0: real, l1: real, s0: real, s1: real)
    requires 0.0 < l0 && 0.0 < l1
    ensures FritschCarlson(l0, l1, -s0, -s1) == -FritschCarlson(l0, l1, s0, s1)
  {
  }

  lemma NegateDivisor(u: real, d: real)
    requires d != 0.0
    ensures u / (-d) == -(u / d)
  {
  }

  /** Fritsch and Carlson's bound: the gradient over either nonzero neighbouring slope lies in [0, 3). */
  lemma GradientRatio(l0: real, l1: real, s0: real, s1: real)
    requires 0.0 < l0 && 0.0 < l1
    ensures var m := FritschCarlson(l0, l1, s0, s1);
            && Tame(m, s0) && Tame(m, s1)
            && (s0 != 0.0 ==> 0.0 <= m / s0 < 3.0)
            && (s1 != 0.0 ==> 0.0 <= m / s1 < 3.0)
  {
    var m := FritschCarlson(l0, l1, s0, s1);
    if 0.0 < s1 * s0 {
      DenominatorSign(1.0, 1.0, s0, s1);
      if 0.0 < s0 {
        FritschCarlsonPositive(l0, l1, s0, s1);
        RatioBound(m, s0);
        RatioBound(m, s1);
      } else {
        FritschCarlsonNegates(l0, l1, s0, s1);
        FritschCarlsonPositive(l0, l1, -s0, -s1);
        NegativeRatioBound(m, s0);
        NegativeRatioBound(m, s1);
      }
    } else {
      assert m == 0.0;
      if s0 != 0.0 { QuotientIs(0.0, s0, 0.0); }
      if s1 != 0.0 { QuotientIs(0.0, s1, 0.0); }
    }
  }

  lemma NegativeRatioBound(m: real, s: real)
    requires s < 0.0 && 0.0 <= -m < 3.0 * -s
    ensures 0.0 <= m / s < 3.0
  {
    RatioBound(-m, -s);
    NegateDivisor(-m, s);
    QuotientTimes(m, s);
    QuotientIs(-(m / s), s, -m);
  }

  lemma RatioBound(m: real, s: real)
    requires 0.0 < s && 0.0 <= m < 3.0 * s
    ensures 0.0 <= m / s < 3.0
  {
  }

  lemma NegativeTimesPositive(u: real, k: real)
    requires u < 0.0 < k
    ensures u * k < 0.0
  {
  }

  // ---------------------------------------------------------------- one segment

  /** What the source captures in the closure of a segment. */
  datatype Cubic = Cubic(x: real, c1: real, c2: real, c3: real, c4: real)

  function Eval(c: Cubic, x: real): real {
    var diff := x - c.x;
    var diffSq := diff * diff;
    c.c1 * diff * diffSq + c.c2 * diffSq + c.c3 * diff + c.c4
  }

  ghost function EvalSlope(c: Cubic, x: real): real {
    var diff := x - c.x;
    3.0 * c.c1 * diff * diff + 2.0 * c.c2 * diff + c.c3
  }

  /** Taylor's formula with nothing left over: EvalSlope is the derivative of Eval. */
  lemma CubicTaylor(c: Cubic, x: real, e: real)
    ensures Eval(c, x + e) == Eval(c, x) + e * EvalSlope(c, x)
                              + e * e * (3.0 * c.c1 * (x - c.x) + c.c2) + e * e * e * c.c1
  {
  }

  /** The cubic for a segment that starts at (x, y), has length l and chord slope s, and end gradients m, m'. */
  function HermiteCubic(x: real, y: real, l: real, s: real, m: real, m': real): Cubic
    requires 0.0 < l
  {
    var invLength := 1.0 / l;
    var common := m + m' - s - s;
    Cubic(x, common * invLength * invLength, (s - common - m) * invLength, m, y)
  }

  /** The segment in the unit interval: Eval at x + t * l is y + l * Shape(t). */
  function Shape(s: real, m: real, m': real, t: real): real {
    var common := m + m' - s - s;
    common * t * t * t + (s - common - m) * t * t + m * t
  }

  lemma EvalIsShape(x: real, y: real, l: real, s: real, m: real, m': real, t: real)
    requires 0.0 < l
    ensures Eval(HermiteCubic(x, y, l, s, m, m'), x + t * l) == y + l * Shape(s, m, m', t)
  {
  }

  /** The segment starts and ends in its data points, with the given gradients. */
  lemma HermiteEnds(x: real, y: real, l: real, s: real, m: real, m': real)
    requires 0.0 < l
    ensures var c := HermiteCubic(x, y, l, s, m, m');
            && Eval(c, x) == y && Eval(c, x + l) == y + l * s
            && EvalSlope(c, x) == m && EvalSlope(c, x + l) == m'
  {
    EvalIsShape(x, y, l, s, m, m', 1.0);
    var inv := 1.0 / l;
    QuotientTimes(1.0, l);
    var common := m + m' - s - s;
    assert 3.0 * (common * inv * inv) * l * l == 3.0 * common * (inv * l) * (inv * l);
    assert 2.0 * ((s - common - m) * inv) * l == 2.0 * (s - common - m) * (inv * l);
  }

  /** Difference quotient of Shape, as a linear form in the two gradients and the slope. */
  lemma ShapeDifference(s: real, m: real, m': real, u: real, v: real)
    ensures var q := u * u + u * v + v * v;
            Shape(s, m, m', v) - Shape(s, m, m', u)
            == (v - u) * ((q - 2.0 * (u + v) + 1.0) * m + (q - (u + v)) * m' + (3.0 * (u + v) - 2.0 * q) * s)
  {
  }

  lemma CornerFlat(u: real, v: real)
    requires 0.0 <= u <= 1.0 && 0.0 <= v <= 1.0
    ensures 0.0 <= 3.0 * (u + v) - 2.0 * (u * u + u * v + v * v)
  {
    NonnegativeProduct(u, 1.0 - u);
    NonnegativeProduct(v, 1.0 - v);
    NonnegativeProduct(u, 1.0 - v);
    NonnegativeProduct(v, 1.0 - u);
    assert 3.0 * (u + v) - 2.0 * (u * u + u * v + v * v)
        == 2.0 * (u * (1.0 - u)) + 2.0 * (v * (1.0 - v)) + u * (1.0 - v) + v * (1.0 - u);
  }

  lemma CornerLeft(u: real, v: real)
    requires 0.0 <= u <= 1.0 && 0.0 <= v <= 1.0
    ensures 0.0 <= u * u + u * v + v * v - 3.0 * (u + v) + 3.0
  {
  }

  lemma CornerRight(u: real, v: real)
    requires 0.0 <= u <= 1.0 && 0.0 <= v <= 1.0
    ensures 0.0 <= u * u + u * v + v * v
  {
  }

  lemma CornerBoth(u: real, v: real)
    ensures 0.0 <= 4.0 * (u * u + u * v + v * v) - 6.0 * (u + v) + 3.0
  {
    Square(u + v - 1.0);
    Square(u - v);
  }

  /** The four corners of the region [0, 3] x [0, 3] of normalised gradients. */
  lemma Corners(u: real, v: real, q: real, a: real, b: real, c: real)
    requires 0.0 <= u <= 1.0 && 0.0 <= v <= 1.0
    requires q == u * u + u * v + v * v
    requires a == q - 2.0 * (u + v) + 1.0 && b == q - (u + v) && c == 3.0 * (u + v) - 2.0 * q
    ensures 0.0 <= c && 0.0 <= c + 3.0 * a && 0.0 <= c + 3.0 * b && 0.0 <= c + 3.0 * a + 3.0 * b
  {
    CornerFlat(u, v);
    CornerLeft(u, v);
    CornerRight(u, v);
    CornerBoth(u, v);
  }

  lemma Square(u: real)
    ensures 0.0 <= u * u
  {
  }

  lemma LinearFormNonnegative(a: real, b: real, c: real, s: real, m: real, m': real)
    requires 0.0 <= c && 0.0 <= c + 3.0 * a && 0.0 <= c + 3.0 * b && 0.0 <= c + 3.0 * a + 3.0 * b
    requires 0.0 <= s && 0.0 <= m <= 3.0 * s && 0.0 <= m' <= 3.0 * s
    ensures 0.0 <= a * m + b * m' + c * s
  {
    TowardsCorner(a, m, s);
    TowardsCorner(b, m', s);
    NonnegativeProduct(c, s);
    CornerSign(c, a, s);
    CornerSign(c, b, s);
    BothSign(c, a, b, s);
    SomeCorner(c * s, a * s, b * s, a * m, b * m');
  }

  lemma CornerSign(c: real, k: real, s: real)
    requires 0.0 <= c + 3.0 * k && 0.0 <= s
    ensures 0.0 <= c * s + 3.0 * (k * s)
  {
    NonnegativeProduct(c + 3.0 * k, s);
    CornerProduct(c, k, s);
  }

  lemma BothSign(c: real, k: real, l: real, s: real)
    requires 0.0 <= c + 3.0 * k + 3.0 * l && 0.0 <= s
    ensures 0.0 <= c * s + 3.0 * (k * s) + 3.0 * (l * s)
  {
    CornerSign(c + 3.0 * k, l, s);
    CornerProduct(c, k, s);
  }

  lemma CornerProduct(c: real, k: real, s: real)
    ensures (c + 3.0 * k) * s == c * s + 3.0 * (k * s)
  {
  }

  lemma SomeCorner(cs: real, aS: real, bS: real, am: real, bm: real)
    requires 0.0 <= cs && 0.0 <= cs + 3.0 * aS && 0.0 <= cs + 3.0 * bS && 0.0 <= cs + 3.0 * aS + 3.0 * bS
    requires 0.0 <= am || 3.0 * aS <= am
    requires 0.0 <= bm || 3.0 * bS <= bm
    ensures 0.0 <= am + bm + cs
  {
  }

  lemma TowardsCorner(a: real, m: real, s: real)
    requires 0.0 <= m <= 3.0 * s
    ensures 0.0 <= a ==> 0.0 <= a * m
    ensures a < 0.0 ==> 3.0 * (a * s) <= a * m
  {
  }

  lemma ShapeIncreases(s: real, m: real, m': real, u: real, v: real)
    requires 0.0 <= s && Tame(m, s) && Tame(m', s)
    requires 0.0 <= u <= v <= 1.0
    ensures Shape(s, m, m', u) <= Shape(s, m, m', v)
  {
    ShapeDifference(s, m, m', u, v);
    var q := u * u + u * v + v * v;
    var a, b, c := q - 2.0 * (u + v) + 1.0, q - (u + v), 3.0 * (u + v) - 2.0 * q;
    Corners(u, v, q, a, b, c);
    LinearFormNonnegative(a, b, c, s, m, m');
    NonnegativeProduct(v - u, a * m + b * m' + c * s);
  }

  lemma ShapeNegates(s: real, m: real, m': real, t: real)
    ensures Shape(-s, -m, -m', t) == -Shape(s, m, m', t)
  {
  }

  /** With tame gradients the segment is monotone in the direction of the data. */
  lemma ShapeMonotone(s: real, m: real, m': real, u: real, v: real)
    requires Tame(m, s) && Tame(m', s)
    requires 0.0 <= u <= v <= 1.0
    ensures 0.0 <= s ==> Shape(s, m, m', u) <= Shape(s, m, m', v)
    ensures s <= 0.0 ==> Shape(s, m, m', v) <= Shape(s, m, m', u)
  {
    if 0.0 <= s {
      ShapeIncreases(s, m, m', u, v);
    }
    if s <= 0.0 {
      ShapeIncreases(-s, -m, -m', u, v);
      ShapeNegates(s, m, m', u);
      ShapeNegates(s, m, m', v);
    }
  }

  // ---------------------------------------------------------------- all segments

  ghost function Gradient(px: seq<real>, py: seq<real>, monotonicFit: bool, tension: real, k: nat): real
    requires Knots(px, py) && k < |px|
  {
    var n := |px|;
    if k == 0 then Chord(px, py, 0)
    else if k == n - 1 then Chord(px, py, n - 2)
    else if monotonicFit then
      FritschCarlson(px[k] - px[k - 1], px[k + 1] - px[k], Chord(px, py, k - 1), Chord(px, py, k))
    else
      Cardinal(tension, px[k - 1], px[k + 1], py[k - 1], py[k + 1])
  }

  ghost function SplineOf(px: seq<real>, py: seq<real>, monotonicFit: bool, tension: real, i: nat): Cubic
    requires Knots(px, py) && i + 1 < |px|
  {
    HermiteCubic(px[i], py[i], px[i + 1] - px[i], Chord(px, py, i),
                 Gradient(px, py, monotonicFit, tension, i), Gradient(px, py, monotonicFit, tension, i + 1))
  }

  /** The desired gradient at every data point. */
  method Gradients(px: seq<real>, py: seq<real>, monotonicFit: bool, tension: real,
                   segmentLengths: seq<real>, segmentSlopes: seq<real>) returns (gradients: seq<real>)
    requires Knots(px, py) && |segmentLengths| == |segmentSlopes| == |px| - 1
    requires forall k: nat {:trigger segmentLengths[k]} :: k + 1 < |px| ==> segmentLengths[k] == px[k + 1] - px[k]
    requires forall k: nat {:trigger segmentSlopes[k]} :: k + 1 < |px| ==> segmentSlopes[k] == Chord(px, py, k)
    ensures |gradients| == |px|
    ensures forall k: nat :: k < |px| ==> gradients[k] == Gradient(px, py, monotonicFit, tension, k)
  {
    hide FritschCarlson, Chord, Cardinal;
    var n := |px|;
    gradients := [segmentSlopes[0]];
    if monotonicFit {
      for i := 1 to n - 1
        invariant |gradients| == i
        invariant forall k: nat :: k < i ==> gradients[k] == Gradient(px, py, monotonicFit, tension, k)
      {
        gradients := gradients + [FritschCarlson(segmentLengths[i - 1], segmentLengths[i],
                                                 segmentSlopes[i - 1], segmentSlopes[i])];
      }
    } else {
      for i := 1 to n - 1
        invariant |gradients| == i
        invariant forall k: nat :: k < i ==> gradients[k] == Gradient(px, py, monotonicFit, tension, k)
      {
        gradients := gradients + [Cardinal(tension, px[i - 1], px[i + 1], py[i - 1], py[i + 1])];
      }
    }
    gradients := gradients + [segmentSlopes[n - 2]];
  }

  method CreateHermiteSplines(px: seq<real>, py: seq<real>, monotonicFit: bool, tension: real)
    returns (splines: seq<Cubic>)
    requires Knots(px, py)
    ensures |splines| == |px| - 1
    ensures forall i: nat :: i < |splines| ==> splines[i] == SplineOf(px, py, monotonicFit, tension, i)
  {
    hide Chord, Gradient, HermiteCubic;
    var n := |px|;
    var segmentLengths, segmentSlopes := [], [];
    for i := 0 to n - 1
      invariant |segmentLengths| == |segmentSlopes| == i
      invariant forall k: nat {:trigger segmentLengths[k]} :: k < i ==> segmentLengths[k] == px[k + 1] - px[k]
      invariant forall k: nat {:trigger segmentSlopes[k]} :: k < i ==> segmentSlopes[k] == Chord(px, py, k)
    {
      segmentLengths := segmentLengths + [px[i + 1] - px[i]];
      segmentSlopes := segmentSlopes + [Chord(px, py, i)];
    }
    var gradients := Gradients(px, py, monotonicFit, tension, segmentLengths, segmentSlopes);
    splines := [];
    for i := 0 to n - 1
      invariant |splines| == i
      invariant forall k: nat :: k < i ==> splines[k] == SplineOf(px, py, monotonicFit, tension, k)
    {
      splines := splines + [HermiteCubic(px[i], py[i], segmentLengths[i], segmentSlopes[i], gradients[i],
                                         gradients[i + 1])];
    }
  }

  lemma ChordSpan(px: seq<real>, py: seq<real>, i: nat)
    requires Knots(px, py) && i + 1 < |px|
    ensures (px[i + 1] - px[i]) * Chord(px, py, i) == py[i + 1] - py[i]
    ensures py[i] <= py[i + 1] ==> 0.0 <= Chord(px, py, i)
    ensures py[i + 1] <= py[i] ==> Chord(px, py, i) <= 0.0
  {
  }

  /** Whatever the gradients, the curve passes through every data point with one slope: it is smooth. */
  lemma JoinsSmoothly(px: seq<real>, py: seq<real>, monotonicFit: bool, tension: real, i: nat)
    requires Knots(px, py) && i + 1 < |px|
    ensures var c := SplineOf(px, py, monotonicFit, tension, i);
            && Eval(c, px[i]) == py[i] && Eval(c, px[i + 1]) == py[i + 1]
            && EvalSlope(c, px[i]) == Gradient(px, py, monotonicFit, tension, i)
            && EvalSlope(c, px[i + 1]) == Gradient(px, py, monotonicFit, tension, i + 1)
  {
    ChordSpan(px, py, i);
    HermiteEnds(px[i], py[i], px[i + 1] - px[i], Chord(px, py, i),
                Gradient(px, py, monotonicFit, tension, i), Gradient(px, py, monotonicFit, tension, i + 1));
    assert px[i] + (px[i + 1] - px[i]) == px[i + 1];
  }

  lemma GradientsAreTame(px: seq<real>, py: seq<real>, tension: real, i: nat)
    requires Knots(px, py) && i + 1 < |px|
    ensures Tame(Gradient(px, py, true, tension, i), Chord(px, py, i))
    ensures Tame(Gradient(px, py, true, tension, i + 1), Chord(px, py, i))
  {
    if 0 < i {
      GradientRatio(px[i] - px[i - 1], px[i + 1] - px[i], Chord(px, py, i - 1), Chord(px, py, i));
    }
    if i + 2 < |px| {
      GradientRatio(px[i + 1] - px[i], px[i + 2] - px[i + 1], Chord(px, py, i), Chord(px, py, i + 1));
    }
  }

  /** `a` comes no later than `b` in the given direction. */
  predicate Ordered(up: bool, a: real, b: real) {
    if up then a <= b else b <= a
  }

  /** With monotonicFit every segment runs monotonically from one end value to the other, in the
      direction of its data, and never leaves the interval between them. */
  lemma SegmentMonotone(px: seq<real>, py: seq<real>, tension: real, i: nat, up: bool, x: real, x': real)
    requires Knots(px, py) && i + 1 < |px|
    requires px[i] <= x <= x' <= px[i + 1]
    requires Ordered(up, py[i], py[i + 1])
    ensures var c := SplineOf(px, py, true, tension, i);
            && Ordered(up, Eval(c, x), Eval(c, x'))
            && Ordered(up, py[i], Eval(c, x)) && Ordered(up, Eval(c, x), py[i + 1])
  {
    StretchMonotone(px, py, tension, i, up, x, x');
    StretchMonotone(px, py, tension, i, up, px[i], x);
    StretchMonotone(px, py, tension, i, up, x, px[i + 1]);
    JoinsSmoothly(px, py, true, tension, i);
  }

  lemma StretchMonotone(px: seq<real>, py: seq<real>, tension: real, i: nat, up: bool, x: real, x': real)
    requires Knots(px, py) && i + 1 < |px|
    requires px[i] <= x <= x' <= px[i + 1]
    requires Ordered(up, py[i], py[i + 1])
    ensures Ordered(up, Eval(SplineOf(px, py, true, tension, i), x), Eval(SplineOf(px, py, true, tension, i), x'))
  {
    var l, s := px[i + 1] - px[i], Chord(px, py, i);
    GradientsAreTame(px, py, tension, i);
    ChordSpan(px, py, i);
    CubicMonotone(px[i], py[i], l, s, Gradient(px, py, true, tension, i), Gradient(px, py, true, tension, i + 1),
                  up, x, x');
  }

  lemma CubicMonotone(x0: real, y0: real, l: real, s: real, m: real, m': real, up: bool, x: real, x': real)
    requires 0.0 < l && Tame(m, s) && Tame(m', s)
    requires x0 <= x <= x' <= x0 + l
    requires if up then 0.0 <= s else s <= 0.0
    ensures Ordered(up, Eval(HermiteCubic(x0, y0, l, s, m, m'), x), Eval(HermiteCubic(x0, y0, l, s, m, m'), x'))
  {
    hide Eval, HermiteCubic, Shape, Tame;
    var u := UnitParameter(x0, l, x);
    var v := UnitParameter(x0, l, x');
    CancelFactor(u, v, l);
    ShapeMonotone(s, m, m', u, v);
    EvalIsShape(x0, y0, l, s, m, m', u);
    EvalIsShape(x0, y0, l, s, m, m', v);
    assert x == x0 + u * l && x' == x0 + v * l;
    var a, b := Shape(s, m, m', u), Shape(s, m, m', v);
    assert Ordered(up, a, b);
    ScaleOrdered(up, l, a, b, y0);
  }

  lemma CancelFactor(u: real, v: real, l: real)
    requires 0.0 < l && u * l <= v * l
    ensures u <= v
  {
  }

  lemma ScaleOrdered(up: bool, l: real, a: real, b: real, y: real)
    requires 0.0 < l && Ordered(up, a, b)
    ensures Ordered(up, y + l * a, y + l * b)
  {
  }

  lemma UnitParameter(x0: real, l: real, x: real) returns (t: real)
    requires 0.0 < l && x0 <= x <= x0 + l
    ensures 0.0 <= t <= 1.0 && x == x0 + t * l
  {
    t := (x - x0) / l;
    QuotientTimes(x - x0, l);
    if t < 0.0 { NegativeTimesPositive(t, l); }
    if 1.0 < t { NegativeTimesPositive(1.0 - t, l); }
  }
}
