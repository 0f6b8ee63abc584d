/** The filled legacy curve of processDatapoints (curvedLines.js:129-162 with legacyOverride, 171-179). */
module LegacyFill {
  import opened FillMerge
  import opened NaturalSpline
  import opened Options

  /** Top and bottom are sampled at the same places, or neither is: the merge ends, and pairs them sample by
      sample, in whatever order the data points are and whether or not the sweep divides by zero. */
  method FilledLegacyCurve(px: seq<real>, pTop: seq<real>, pBottom: seq<real>, fit: bool, fitPointDist: Option<real>,
                           curvePointFactor: real)
    returns (points: seq<FillPoint<Option<real>>>, top: seq<(real, Option<real>)>, bottom: seq<(real, Option<real>)>,
             mTop: seq<real>, mBottom: seq<real>)
    requires 2 <= |px| == |pTop| == |pBottom|
    requires fit ==> FitDistance(px, fitPointDist) != 0.0
    ensures |top| == |bottom| && points == Zip(top, bottom, |top|)
    ensures var x := LegacyKnots(px, if fit then Some(FitDistance(px, fitPointDist)) else None);
            var num := curvePointFactor * |px| as real;
            var yTop, yBottom := LegacyOrdinates(pTop, fit), LegacyOrdinates(pBottom, fit);
            var outcome := CurveOutcome(x, num);
            && |yTop| == |yBottom| == |x| == |mTop| == |mBottom|
            && (outcome == Solved ==> SolvesSystem(x, yTop, mTop) && SolvesSystem(x, yBottom, mBottom))
            && if outcome == ReturnsEmpty then points == []
               else SamplesOf(x, yTop, num, outcome, mTop, top) && SamplesOf(x, yBottom, num, outcome, mBottom, bottom)
  {
    hide CurveOutcome, LegacyKnots, LegacyOrdinates, SampleX, SolvesSystem, OnCurve;
    var outcome, outcome';
    outcome, mTop, top := CalculateLegacyCurvePoints(px, pTop, fit, fitPointDist, curvePointFactor);
    outcome', mBottom, bottom := CalculateLegacyCurvePoints(px, pBottom, fit, fitPointDist, curvePointFactor);
    assert SameAbscissae(top, bottom);
    RunZipsFromStart(top, bottom, 0);
    points := MergeCurves(top, bottom);
  }
}
