/** The common sampling of two piecewise-linear functions, which the merge loop of the stack and fillbetween
    plugins of flot computes for gap-free line series, and what it draws. */
module Overlay {
  import opened PiecewiseLinear
  import opened Reals

  ghost predicate IsKnot(f: seq<Knot>, v: real) {
    exists a :: 0 <= a < |f| && f[a].x == v
  }

  /** xs are exactly the knots of either function where both are defined, in order; ps and qs are the
      values of the two functions there. */
  ghost predicate IsOverlay(f: seq<Knot>, g: seq<Knot>, xs: seq<real>, ps: seq<real>, qs: seq<real>) {
    && StrictlyIncreasing(xs)
    && SamplesOf(f, xs, ps) && SamplesOf(g, xs, qs)
    && forall v :: v in xs <==> (IsKnot(f, v) || IsKnot(g, v)) && InDomain(f, v) && InDomain(g, v)
  }

  /** An overlay spans exactly the common domain and covers the knots of both functions there. */
  lemma OverlaySpans(f: seq<Knot>, g: seq<Knot>, xs: seq<real>, ps: seq<real>, qs: seq<real>)
    requires Increasing(f) && Increasing(g) && IsOverlay(f, g, xs, ps, qs)
    ensures forall x :: InDomain(f, x) && InDomain(g, x) <==> xs != [] && xs[0] <= x <= xs[|xs| - 1]
    ensures CoversKnots(xs, f) && CoversKnots(xs, g)
  {
    forall x | InDomain(f, x) && InDomain(g, x)
      ensures xs != [] && xs[0] <= x <= xs[|xs| - 1]
    {
      var lo := if f[0].x <= g[0].x then g[0].x else f[0].x;
      var hi := if f[|f| - 1].x <= g[|g| - 1].x then f[|f| - 1].x else g[|g| - 1].x;
      assert IsKnot(f, f[0].x) && IsKnot(g, g[0].x);
      assert IsKnot(f, f[|f| - 1].x) && IsKnot(g, g[|g| - 1].x);
      assert lo in xs && hi in xs;
    }
    forall x | xs != [] && xs[0] <= x <= xs[|xs| - 1]
      ensures InDomain(f, x) && InDomain(g, x)
    {
      assert xs[0] in xs && xs[|xs| - 1] in xs;
    }
    forall a | 0 <= a < |f| && xs != [] && xs[0] <= f[a].x <= xs[|xs| - 1]
      ensures f[a].x in xs
    {
      assert IsKnot(f, f[a].x);
    }
    forall a | 0 <= a < |g| && xs != [] && xs[0] <= g[a].x <= xs[|xs| - 1]
      ensures g[a].x in xs
    {
      assert IsKnot(g, g[a].x);
    }
  }

  /** Drawing the sampled ordinates of an overlay draws the two functions, and drawing their sums draws
      the sum, on the whole common domain. */
  lemma OverlayDraws(f: seq<Knot>, g: seq<Knot>, xs: seq<real>, ps: seq<real>, qs: seq<real>, x: real)
    requires Increasing(f) && Increasing(g) && IsOverlay(f, g, xs, ps, qs)
    ensures InDomain(f, x) && InDomain(g, x) <==> InDomain(Polyline(xs, ps), x)
    ensures InDomain(f, x) && InDomain(g, x) ==>
              && Eval(Polyline(xs, ps), x) == Eval(f, x)
              && Eval(Polyline(xs, qs), x) == Eval(g, x)
              && Eval(Polyline(xs, Plus(ps, qs)), x) == Eval(f, x) + Eval(g, x)
  {
    hide Eval;
    OverlaySpans(f, g, xs, ps, qs);
    if InDomain(f, x) && InDomain(g, x) {
      ResampledIsSame(f, xs, ps, x);
      ResampledIsSame(g, xs, qs, x);
      SumOfPolylines(xs, ps, qs, x);
    }
  }
}
