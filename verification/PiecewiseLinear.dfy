/** Piecewise-linear functions given by their knots, the meaning of a line series of a plot. */
module PiecewiseLinear {
  import opened Reals

  datatype Knot = Knot(x: real, y: real)

  ghost predicate Increasing(f: seq<Knot>) {
    forall i, j :: 0 <= i < j < |f| ==> f[i].x < f[j].x
  }

  /** The value at x of the line through a and b, as the plugins interpolate it. */
  function Lerp(a: Knot, b: Knot, x: real): real
    requires a.x != b.x
  {
    b.y + (a.y - b.y) * (x - b.x) / (a.x - b.x)
  }

  predicate InDomain(f: seq<Knot>, x: real) {
    f != [] && f[0].x <= x <= f[|f| - 1].x
  }

  ghost function Eval(f: seq<Knot>, x: real): real
    requires Increasing(f) && InDomain(f, x)
  {
    var n := |f|;
    if n == 1 then f[0].y
    else if f[n - 2].x <= x then Lerp(f[n - 2], f[n - 1], x)
    else Eval(f[..n - 1], x)
  }

  lemma LerpAtEnds(a: Knot, b: Knot)
    requires a.x != b.x
    ensures Lerp(a, b, a.x) == a.y && Lerp(a, b, b.x) == b.y
  {
  }

  /** A line through two points of a line is that line. */
  lemma LerpOnLine(a: Knot, b: Knot, slope: real, offset: real, x: real)
    requires a.x != b.x
    requires a.y == slope * a.x + offset && b.y == slope * b.x + offset
    ensures Lerp(a, b, x) == slope * x + offset
  {
  }

  lemma LineThrough(a: Knot, b: Knot) returns (slope: real, offset: real)
    requires a.x != b.x
    ensures forall x :: Lerp(a, b, x) == slope * x + offset
  {
    slope := (a.y - b.y) / (a.x - b.x);
    QuotientTimes(a.y - b.y, a.x - b.x);
    offset := a.y - slope * a.x;
    assert slope * a.x - slope * b.x == slope * (a.x - b.x);
    forall x
      ensures Lerp(a, b, x) == slope * x + offset
    {
      LerpOnLine(a, b, slope, offset, x);
    }
  }

  lemma {:induction false} EvalOnSegment(f: seq<Knot>, i: nat, x: real)
    requires Increasing(f) && i + 1 < |f| && f[i].x <= x <= f[i + 1].x
    ensures InDomain(f, x)
    ensures Eval(f, x) == Lerp(f[i], f[i + 1], x)
    decreases |f|
  {
    var n := |f|;
    assert f[0].x <= f[i].x && f[i + 1].x <= f[n - 1].x;
    if i + 2 < n {
      if f[n - 2].x <= x {
        assert i + 1 == n - 2 && x == f[n - 2].x;
        LerpAtEnds(f[n - 2], f[n - 1]);
        LerpAtEnds(f[i], f[i + 1]);
      } else {
        EvalOnSegment(f[..n - 1], i, x);
      }
    }
  }

  lemma EvalAtKnot(f: seq<Knot>, i: nat)
    requires Increasing(f) && i < |f|
    ensures InDomain(f, f[i].x)
    ensures Eval(f, f[i].x) == f[i].y
  {
    assert f[0].x <= f[i].x <= f[|f| - 1].x;
    if i + 1 < |f| {
      EvalOnSegment(f, i, f[i].x);
      LerpAtEnds(f[i], f[i + 1]);
    } else if i > 0 {
      EvalOnSegment(f, i - 1, f[i].x);
      LerpAtEnds(f[i - 1], f[i]);
    }
  }

  /** The segment of x: the last knot at or before it. */
  lemma {:induction false} Locate(f: seq<Knot>, x: real) returns (i: nat)
    requires Increasing(f) && InDomain(f, x)
    ensures i < |f| && f[i].x <= x && (i + 1 < |f| ==> x < f[i + 1].x)
    decreases |f|
  {
    var n := |f|;
    if f[n - 1].x <= x {
      i := n - 1;
    } else if f[n - 2].x <= x {
      i := n - 2;
    } else {
      i := Locate(f[..n - 1], x);
    }
  }

  // ---------------------------------------------------------------- resampling

  /** Every knot of f inside the range of the abscissae xs is one of them. */
  ghost predicate CoversKnots(xs: seq<real>, f: seq<Knot>) {
    forall a {:trigger f[a]} :: 0 <= a < |f| && xs != [] && xs[0] <= f[a].x <= xs[|xs| - 1] ==> f[a].x in xs
  }

  /** The polyline with abscissae xs and ordinates ys. */
  ghost function Polyline(xs: seq<real>, ys: seq<real>): (g: seq<Knot>)
    requires |xs| == |ys|
    ensures |g| == |xs|
    ensures StrictlyIncreasing(xs) ==> Increasing(g)
  {
    seq(|xs|, k requires 0 <= k < |xs| => Knot(xs[k], ys[k]))
  }

  ghost predicate SamplesOf(f: seq<Knot>, xs: seq<real>, ys: seq<real>) {
    && |xs| == |ys|
    && Increasing(f)
    && forall k {:trigger xs[k]} :: 0 <= k < |xs| ==> InDomain(f, xs[k]) && ys[k] == Eval(f, xs[k])
  }

  lemma NothingInGap(xs: seq<real>, k: nat, v: real)
    requires StrictlyIncreasing(xs) && k + 1 < |xs| && v in xs
    ensures v <= xs[k] || xs[k + 1] <= v
  {
  }

  /** Between two neighbouring abscissae that cover its knots, f is one line. */
  lemma AffineBetween(f: seq<Knot>, xs: seq<real>, k: nat) returns (slope: real, offset: real)
    requires Increasing(f) && StrictlyIncreasing(xs) && k + 1 < |xs| && CoversKnots(xs, f)
    requires InDomain(f, xs[k]) && InDomain(f, xs[k + 1])
    ensures forall x :: xs[k] <= x <= xs[k + 1] ==> InDomain(f, x) && Eval(f, x) == slope * x + offset
  {
    hide Lerp, Eval;
    var i := Locate(f, xs[k]);
    assert i + 1 < |f|;
    assert xs[0] <= xs[k] && xs[k + 1] <= xs[|xs| - 1];
    if f[i + 1].x <= xs[|xs| - 1] {
      NothingInGap(xs, k, f[i + 1].x);
    }
    assert xs[k + 1] <= f[i + 1].x;
    slope, offset := LineThrough(f[i], f[i + 1]);
    forall x | xs[k] <= x <= xs[k + 1]
      ensures InDomain(f, x) && Eval(f, x) == slope * x + offset
    {
      EvalOnSegment(f, i, x);
    }
  }

  lemma ResampledLeg(f: seq<Knot>, xs: seq<real>, ys: seq<real>, k: nat, x: real)
    requires StrictlyIncreasing(xs) && SamplesOf(f, xs, ys) && CoversKnots(xs, f)
    requires k + 1 < |xs| && xs[k] <= x <= xs[k + 1]
    ensures InDomain(f, x) && Eval(f, x) == Lerp(Knot(xs[k], ys[k]), Knot(xs[k + 1], ys[k + 1]), x)
  {
    hide Lerp, Eval;
    var slope, offset := AffineBetween(f, xs, k);
    assert xs[k] < xs[k + 1];
    LerpOnLine(Knot(xs[k], ys[k]), Knot(xs[k + 1], ys[k + 1]), slope, offset, x);
  }

  /** Resampling f at abscissae that cover its knots gives back f, on their range. */
  lemma ResampledIsSame(f: seq<Knot>, xs: seq<real>, ys: seq<real>, x: real)
    requires StrictlyIncreasing(xs) && SamplesOf(f, xs, ys) && CoversKnots(xs, f)
    requires xs != [] && xs[0] <= x <= xs[|xs| - 1]
    ensures InDomain(f, x) && Eval(Polyline(xs, ys), x) == Eval(f, x)
  {
    hide Lerp, Eval;
    var g := Polyline(xs, ys);
    var k := Locate(g, x);
    if k + 1 < |g| {
      EvalOnSegment(g, k, x);
      ResampledLeg(f, xs, ys, k, x);
    } else {
      assert x == xs[k];
      EvalAtKnot(g, k);
    }
  }

  /** On common abscissae, adding ordinates adds the functions. */
  lemma SumOfPolylines(xs: seq<real>, ys: seq<real>, zs: seq<real>, x: real)
    requires StrictlyIncreasing(xs) && |xs| == |ys| == |zs|
    requires xs != [] && xs[0] <= x <= xs[|xs| - 1]
    ensures Eval(Polyline(xs, Plus(ys, zs)), x) == Eval(Polyline(xs, ys), x) + Eval(Polyline(xs, zs), x)
  {
    hide Lerp, Eval;
    var f, g, h := Polyline(xs, ys), Polyline(xs, zs), Polyline(xs, Plus(ys, zs));
    var k := Locate(f, x);
    if k + 1 < |f| {
      EvalOnSegment(f, k, x);
      EvalOnSegment(g, k, x);
      EvalOnSegment(h, k, x);
      LerpSum(f[k], f[k + 1], g[k], g[k + 1], x);
    } else {
      EvalAtKnot(f, k);
      EvalAtKnot(g, k);
      EvalAtKnot(h, k);
    }
  }

  lemma LerpSum(a: Knot, b: Knot, a': Knot, b': Knot, x: real)
    requires a.x == a'.x != b.x == b'.x
    ensures Lerp(Knot(a.x, a.y + a'.y), Knot(b.x, b.y + b'.y), x) == Lerp(a, b, x) + Lerp(a', b', x)
  {
    hide Lerp;
    var s, o := LineThrough(a, b);
    var s', o' := LineThrough(a', b');
    LineEnds(a, b, s, o);
    LineEnds(a', b', s', o');
    LerpOnLine(Knot(a.x, a.y + a'.y), Knot(b.x, b.y + b'.y), s + s', o + o', x);
  }

  lemma LineEnds(a: Knot, b: Knot, slope: real, offset: real)
    requires a.x != b.x
    requires forall x :: Lerp(a, b, x) == slope * x + offset
    ensures a.y == slope * a.x + offset && b.y == slope * b.x + offset
  {
    LerpAtEnds(a, b);
  }

  ghost function Plus(ys: seq<real>, zs: seq<real>): seq<real>
    requires |ys| == |zs|
  {
    seq(|ys|, k requires 0 <= k < |ys| => ys[k] + zs[k])
  }
}
