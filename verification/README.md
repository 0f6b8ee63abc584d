# Verified models of the demo application's browser-side algorithms

The load-test report and the demo pages of this repository ship a small body of JavaScript that does real work:
the charting code of the report (the flot library with its plugins, and the curvedLines plugin), a hash table, a
chunked upload client, and a credit card check. This project models those algorithms in Dafny 4.11 and proves what
they are for. `dafny verify dfyconfig.toml` checks everything.

Numbers are exact reals or unbounded integers: floating-point rounding, NaN and Infinity are abstracted away, and a
division by zero in the source is an outcome of its own or proved impossible. JavaScript's null and undefined are
`None`. A data point, which occupies `pointsize` slots of a flat array in the source, is one value, except where the
flat layout is the point (category rewriting). Line numbers below and in comments refer to the modelled files.

| files | what they model |
|---|---|
| `NaturalSpline` | the legacy curve of curvedLines: tridiagonal sweep in place, binary search, sampling, fit points |
| `Hermite`, `SplineGradients`, `CurveSamples`, `FillMerge`, `LegacyFill` | the default curve: Fritsch-Carlson and cardinal gradients, sampling; the merge of top and bottom, for both kinds of curve |
| `PiecewiseLinear`, `SeriesPoints`, `SeriesValue`, `Overlay`, `GapMerge`, `BarMerge`, `Stack`, `StackGroup`, `BarPile`, `FillBetween` | stacking and filling as operations on piecewise-linear functions with gaps |
| `Threshold` | splitting a polyline at a level |
| `Clip`, `PlotLine`, `AreaSweep`, `AreaShape`, `AreaOutline` | line clipping, and the two-way sweep that fills areas |
| `TextCache`, `TextOverlay` | the mark-and-sweep text cache of flot's canvas against clear-and-redraw |
| `Powers`, `Ticks`, `TickGenerator` | axis ranges, tick sizes, the default tick generator, snapping |
| `AxisTransform`, `Navigate`, `PlotNavigation` | data and canvas coordinates, zooming and panning |
| `HashBuckets`, `HashContents`, `HashListing`, `HashTable` | jshashtable as a finite map up to an equivalence on keys |
| `Upload`, `UploadChat`, `UploadClient` | the upload client, its channels and the acknowledging server as a transition system |
| `Luhn`, `Categories` | the card number check, and flot's category codes |
| `Reals`, `Options` | scalar lemmas and the option type |

Where the source mutates (arrays, lists, maps, object fields) the model is a method or a class whose contract ties the
new state to a specification function of the old one; the lemmas then say what that function means.

Some findings, each stated as a lemma with its exact condition or a concrete instance:

- A fitPointDist of 0 makes the fit loop of the legacy curve run for ever, and the estimated default distance breaks
  the order of the knots for close data points.
- The legacy curve runs past the last data point exactly when curvePointFactor times the number of points is not a
  whole number.
- The top/bottom merge of curvedLines never ends when the top curve reaches beyond the bottom curve; the two curves of
  one series never do.
- The stack plugin pushes interpolated points key first, so horizontal line stacks come out wrong as soon as a point
  has to be interpolated whose two coordinates differ.
- The stack plugin looks at the previous member of a stack only: a bar stands on the ground, inside the bars of earlier
  members, as soon as the member just before has no bar at its key.
- For sorted data the legacy curve's guard against equal knots only fires when the last two are equal; other equal
  neighbours end in a division by zero.
- A negative tickSize option makes the default tick generator run for ever, unless the first tick, the minimum rounded
  to a multiple of the size, already reaches the maximum.
- A zoom by a negative amount mirrors the center. zoomOut writes the inverse amount into the caller's argument
  object: without limits and for a positive amount a second zoomOut with the same object gives the old range back,
  which zooms in exactly for amounts above one.
- A zoom that its zoomRange does not refuse leaves an axis with a reversed range exactly when the range it would show
  lies wholly beyond one limit of the panRange, or the panRange is itself given the wrong way round. Otherwise it
  even puts a reversed range right again.
- An empty upload is announced as complete, but the server never opened a file for it and so sends no audit result;
  the client then keeps its file.

## Model

| member | source | states |
|---|---|---|
| `NaturalSpline.SolveSecondDerivatives` | loadtest/jmeter/reports/ping.jmx_127.0.0.1_10users_in0s_eachloop100delay0ms/content/js/curvedLines.js:386-410 | the in-place sweep, over the array that first holds coefficients and then the solution, ends with a solution of the natural-spline system whenever no division fails, and its outcome is known for every order of the abscissae: `return []` if and only if the neighbours of an interior knot coincide, a division by zero if and only if otherwise two neighbours coincide or a pivot vanishes; increasing abscissae always get a solution |
| `NaturalSpline.ForwardRow` | loadtest/jmeter/reports/ping.jmx_127.0.0.1_10users_in0s_eachloop100delay0ms/content/js/curvedLines.js:394-406 | one elimination step: `return []` exactly for coinciding neighbours, success exactly for distinct abscissae and a pivot other than zero, and then the new row is the equation with its first unknown eliminated |
| `NaturalSpline.ForwardSweep` | loadtest/jmeter/reports/ping.jmx_127.0.0.1_10users_in0s_eachloop100delay0ms/content/js/curvedLines.js:394-406 | the forward loop stops early only for coinciding neighbours; otherwise it divides by zero nowhere if and only if every row runs, and then every row is eliminated |
| `NaturalSpline.BackSubstitute` | loadtest/jmeter/reports/ping.jmx_127.0.0.1_10users_in0s_eachloop100delay0ms/content/js/curvedLines.js:408-410 | the backward loop turns eliminated rows into a vector that satisfies every one of them |
| `NaturalSpline.PivotBounds` | loadtest/jmeter/reports/ping.jmx_127.0.0.1_10users_in0s_eachloop100delay0ms/content/js/curvedLines.js:401-403 | -1 < y2[i] <= 0 and a pivot above one are kept by every forward step, so the sweep never divides by zero |
| `NaturalSpline.IncreasingRuns` | loadtest/jmeter/reports/ping.jmx_127.0.0.1_10users_in0s_eachloop100delay0ms/content/js/curvedLines.js:394-406 | for increasing abscissae every row runs, since no pivot is below one |
| `NaturalSpline.UnorderedCanRun` | loadtest/jmeter/reports/ping.jmx_127.0.0.1_10users_in0s_eachloop100delay0ms/content/js/curvedLines.js:386-410 | a concrete set of abscissae out of order for which the sweep succeeds |
| `NaturalSpline.PivotCanVanish` | loadtest/jmeter/reports/ping.jmx_127.0.0.1_10users_in0s_eachloop100delay0ms/content/js/curvedLines.js:401-403 | a concrete set of distinct abscissae out of order with a pivot of zero |
| `NaturalSpline.SolutionIsUnique` | loadtest/jmeter/reports/ping.jmx_127.0.0.1_10users_in0s_eachloop100delay0ms/content/js/curvedLines.js:386-410 | the natural-spline system of increasing abscissae has exactly one solution, so the sweep computes the natural spline |
| `NaturalSpline.SegmentTaylor` | loadtest/jmeter/reports/ping.jmx_127.0.0.1_10users_in0s_eachloop100delay0ms/content/js/curvedLines.js:452 | the evaluated cubic has the stated slope and curvature as its derivatives, exactly |
| `NaturalSpline.Interpolates` | loadtest/jmeter/reports/ping.jmx_127.0.0.1_10users_in0s_eachloop100delay0ms/content/js/curvedLines.js:441-452 | the curve passes through both knots of every segment, for any second derivatives |
| `NaturalSpline.SmoothExactlyWhenRow` | loadtest/jmeter/reports/ping.jmx_127.0.0.1_10users_in0s_eachloop100delay0ms/content/js/curvedLines.js:404-405 | at an interior knot the one-sided slopes agree if and only if the equation of that knot holds |
| `NaturalSpline.SolvesExactlyWhenSmooth` | loadtest/jmeter/reports/ping.jmx_127.0.0.1_10users_in0s_eachloop100delay0ms/content/js/curvedLines.js:386-410 | second derivatives solve the system if and only if they vanish at both ends and every join is smooth |
| `NaturalSpline.FindSegment` | loadtest/jmeter/reports/ping.jmx_127.0.0.1_10users_in0s_eachloop100delay0ms/content/js/curvedLines.js:429-439 | the binary search terminates with adjacent knots that bracket the abscissa, the ones its halving steps lead to |
| `NaturalSpline.SampleCurve` | loadtest/jmeter/reports/ping.jmx_127.0.0.1_10users_in0s_eachloop100delay0ms/content/js/curvedLines.js:412-458 | for knots in any order: an empty curve exactly when the sweep returns early or a sample falls between two equal knots, else one sample per step at its evenly spaced abscissa; its ordinate is defined if and only if the sweep divided by zero nowhere, and for increasing knots it lies on the solved spline, in the segment that brackets it |
| `NaturalSpline.EqualKnotsFoundExactlyWhen` | loadtest/jmeter/reports/ping.jmx_127.0.0.1_10users_in0s_eachloop100delay0ms/content/js/curvedLines.js:441-447 | for sorted knots the second early return, meant for equal knots, is taken if and only if the last two are equal and there is a sample |
| `NaturalSpline.SamplesStayInRange` | loadtest/jmeter/reports/ping.jmx_127.0.0.1_10users_in0s_eachloop100delay0ms/content/js/curvedLines.js:317-427 | the last sample stays within the data if and only if curvePointFactor times the number of points is whole, and then it is the last knot |
| `NaturalSpline.FractionalFactorCanFail` | loadtest/jmeter/reports/ping.jmx_127.0.0.1_10users_in0s_eachloop100delay0ms/content/js/curvedLines.js:317-427 | a concrete curve on [0, 3] whose last sample is at 4 |
| `NaturalSpline.AdjustmentLoop` | loadtest/jmeter/reports/ping.jmx_127.0.0.1_10users_in0s_eachloop100delay0ms/content/js/curvedLines.js:353-359 | the loop that moves fit points off a data point is entered, and then never left, exactly for distance zero |
| `NaturalSpline.InsertFitPoints` | loadtest/jmeter/reports/ping.jmx_127.0.0.1_10users_in0s_eachloop100delay0ms/content/js/curvedLines.js:326-373 | three knots per data point with its ordinate: the data point itself, and one at the given distance on either side of it |
| `NaturalSpline.FitKnotsIncreaseExactlyWhen` | loadtest/jmeter/reports/ping.jmx_127.0.0.1_10users_in0s_eachloop100delay0ms/content/js/curvedLines.js:326-373 | the fitted knots increase if and only if the distance is positive and below half of every gap |
| `NaturalSpline.DefaultFitDistanceCanFail` | loadtest/jmeter/reports/ping.jmx_127.0.0.1_10users_in0s_eachloop100delay0ms/content/js/curvedLines.js:331-336 | the estimated default distance breaks the order for close data points: a concrete instance |
| `NaturalSpline.CalculateLegacyCurvePoints` | loadtest/jmeter/reports/ping.jmx_127.0.0.1_10users_in0s_eachloop100delay0ms/content/js/curvedLines.js:313-459 | the whole legacy curve, with or without fit points: its outcome and the abscissae of its samples depend on the abscissae of the data alone, and whenever the knots increase the samples lie on the natural spline of the knots |
| `Hermite.GradientRatio` | loadtest/jmeter/reports/ping.jmx_127.0.0.1_10users_in0s_eachloop100delay0ms/content/js/curvedLines.js:253-267 | Fritsch and Carlson: an interior gradient over either nonzero adjacent slope lies in [0, 3), in every branch |
| `Hermite.Gradients` | loadtest/jmeter/reports/ping.jmx_127.0.0.1_10users_in0s_eachloop100delay0ms/content/js/curvedLines.js:250-277 | the loops yield, for both methods, the gradients that SplineGradients reads off the finished splines |
| `Hermite.CreateHermiteSplines` | loadtest/jmeter/reports/ping.jmx_127.0.0.1_10users_in0s_eachloop100delay0ms/content/js/curvedLines.js:232-309 | one cubic per segment, the Hermite cubic of its end points and gradients |
| `Hermite.HermiteEnds` | loadtest/jmeter/reports/ping.jmx_127.0.0.1_10users_in0s_eachloop100delay0ms/content/js/curvedLines.js:279-305 | the coefficients make the cubic start and end in its data points with the given gradients |
| `Hermite.CubicTaylor` | loadtest/jmeter/reports/ping.jmx_127.0.0.1_10users_in0s_eachloop100delay0ms/content/js/curvedLines.js:298-302 | the cubic and its slope are related by an exact Taylor formula |
| `Hermite.JoinsSmoothly` | loadtest/jmeter/reports/ping.jmx_127.0.0.1_10users_in0s_eachloop100delay0ms/content/js/curvedLines.js:232-309 | neighbouring segments meet in the data point with one slope, whatever the gradients |
| `Hermite.GradientsAreTame` | loadtest/jmeter/reports/ping.jmx_127.0.0.1_10users_in0s_eachloop100delay0ms/content/js/curvedLines.js:253-277 | with monotonicFit both end gradients of a segment lie between zero and three times its slope |
| `Hermite.SegmentMonotone` | loadtest/jmeter/reports/ping.jmx_127.0.0.1_10users_in0s_eachloop100delay0ms/content/js/curvedLines.js:253-309 | with monotonicFit each segment is monotone in the direction of its data and never leaves the interval between its end values |
| `SplineGradients.EndsFollowChords` | loadtest/jmeter/reports/ping.jmx_127.0.0.1_10users_in0s_eachloop100delay0ms/content/js/curvedLines.js:252-277 | the curve leaves its first and reaches its last data point along the line to the neighbouring one |
| `SplineGradients.CardinalSlope` | loadtest/jmeter/reports/ping.jmx_127.0.0.1_10users_in0s_eachloop100delay0ms/content/js/curvedLines.js:268-276 | without monotonicFit its slope at an inner data point, times the distance of the neighbours, is tension times the difference of their ordinates |
| `SplineGradients.HarmonicSlope` | loadtest/jmeter/reports/ping.jmx_127.0.0.1_10users_in0s_eachloop100delay0ms/content/js/curvedLines.js:253-267 | with monotonicFit it is level where the data turn or rest, and elsewhere its slope is the weighted harmonic mean of the slopes of the two segments |
| `SplineGradients.LinesAreKept` | loadtest/jmeter/reports/ping.jmx_127.0.0.1_10users_in0s_eachloop100delay0ms/content/js/curvedLines.js:232-309 | data on a line give back that line everywhere, with monotonicFit and with tension 1 |
| `CurveSamples.CalculateSplineCurvePoints` | loadtest/jmeter/reports/ping.jmx_127.0.0.1_10users_in0s_eachloop100delay0ms/content/js/curvedLines.js:184-222 | the sampling loops produce the knots and the samples between them on the splines of the data |
| `CurveSamples.SampleIsThere` | loadtest/jmeter/reports/ping.jmx_127.0.0.1_10users_in0s_eachloop100delay0ms/content/js/curvedLines.js:184-222 | sample k of segment i lies k / nrSplinePoints of the way along the segment, on its cubic; the last data point ends the curve |
| `CurveSamples.SampleSegment` | loadtest/jmeter/reports/ping.jmx_127.0.0.1_10users_in0s_eachloop100delay0ms/content/js/curvedLines.js:200-212 | the accumulating inner loop visits exactly the steps that lie before the right end |
| `CurveSamples.SamplesShareXs` | loadtest/jmeter/reports/ping.jmx_127.0.0.1_10users_in0s_eachloop100delay0ms/content/js/curvedLines.js:196-215 | the sampled abscissae do not depend on the ordinates |
| `CurveSamples.CurveIncreases` | loadtest/jmeter/reports/ping.jmx_127.0.0.1_10users_in0s_eachloop100delay0ms/content/js/curvedLines.js:184-222 | nrSplinePoints samples per segment (rounded up) plus one, at strictly increasing abscissae |
| `CurveSamples.CurvesShareXs` | loadtest/jmeter/reports/ping.jmx_127.0.0.1_10users_in0s_eachloop100delay0ms/content/js/curvedLines.js:131-132 | top and bottom curve of one series are sampled at the same places |
| `CurveSamples.CurveMonotone` | loadtest/jmeter/reports/ping.jmx_127.0.0.1_10users_in0s_eachloop100delay0ms/content/js/curvedLines.js:184-222 | with monotonicFit the sampled curve of monotone data is monotone |
| `FillMerge.TerminatesExactlyWhen` | loadtest/jmeter/reports/ping.jmx_127.0.0.1_10users_in0s_eachloop100delay0ms/content/js/curvedLines.js:142-162 | for increasing abscissae the merge ends if and only if the top curve does not reach beyond the bottom curve; otherwise it appends undefined points for ever |
| `FillMerge.RunZips` | loadtest/jmeter/reports/ping.jmx_127.0.0.1_10users_in0s_eachloop100delay0ms/content/js/curvedLines.js:142-162 | on common abscissae the loop pairs the two curves sample by sample |
| `FillMerge.MergeCurves` | loadtest/jmeter/reports/ping.jmx_127.0.0.1_10users_in0s_eachloop100delay0ms/content/js/curvedLines.js:135-162 | the loop over two indices computes that run whenever the run has an end: the pointwise zip on common abscissae, and for any increasing curves one point per abscissa of either with both curves held at their latest ordinates |
| `FillMerge.MergeHolds` | loadtest/jmeter/reports/ping.jmx_127.0.0.1_10users_in0s_eachloop100delay0ms/content/js/curvedLines.js:142-162 | for increasing curves the merge that ends has one point for every abscissa of either curve, in order, and holds each curve at its latest sample |
| `FillMerge.FilledCurve` | loadtest/jmeter/reports/ping.jmx_127.0.0.1_10users_in0s_eachloop100delay0ms/content/js/curvedLines.js:129-162 | for every series filled with the default curve the merge ends and equals the zip of its sampled top and bottom curves |
| `LegacyFill.FilledLegacyCurve` | loadtest/jmeter/reports/ping.jmx_127.0.0.1_10users_in0s_eachloop100delay0ms/content/js/curvedLines.js:129-182 | for every series filled with the legacy curve, data in any order and divisions by zero included, the merge ends and is the zip of the sampled top and bottom curves |
| `SeriesValue.AtIsEval` | loadtest/jmeter/reports/ping.jmx_127.0.0.1_10users_in0s_eachloop100delay0ms/sbadmin2-1.0.7/bower_components/flot/jquery.flot.js:2241-2252 | what a series with gaps draws at an abscissa is, without gaps, the value of its piecewise-linear function |
| `Stack.StackData` | loadtest/jmeter/reports/ping.jmx_127.0.0.1_10users_in0s_eachloop100delay0ms/sbadmin2-1.0.7/bower_components/flot/jquery.flot.stack.js:57-177 | two sorted line series with any gaps: the output draws their sum exactly where both are drawn, has a point there for every point of either, and raises each bottom by the other series, so that bottoms of zero draw that series; without gaps also horizontally, as the merge of the knots of both; every bar comes out, in order, raised by the bar of the other series with the same key |
| `GapMerge.EmitKeeps` | loadtest/jmeter/reports/ping.jmx_127.0.0.1_10users_in0s_eachloop100delay0ms/sbadmin2-1.0.7/bower_components/flot/jquery.flot.stack.js:108-157 | every branch that emits a point, own or interpolated, keeps the invariant that everything up to it is drawn as both series draw it, and nothing where one of them is not drawn |
| `GapMerge.RestSamplesBoth` | loadtest/jmeter/reports/ping.jmx_127.0.0.1_10users_in0s_eachloop100delay0ms/sbadmin2-1.0.7/bower_components/flot/jquery.flot.stack.js:80-163 | whatever the loop still emits completes a drawing of both series, from every state that the invariant allows |
| `GapMerge.MergeSamplesBoth` | loadtest/jmeter/reports/ping.jmx_127.0.0.1_10users_in0s_eachloop100delay0ms/sbadmin2-1.0.7/bower_components/flot/jquery.flot.stack.js:80-163 | the emitted points draw both series exactly on the abscissae where both are drawn, across all gaps, and have a point there exactly for a point of either |
| `GapMerge.SumDraws` | loadtest/jmeter/reports/ping.jmx_127.0.0.1_10users_in0s_eachloop100delay0ms/sbadmin2-1.0.7/bower_components/flot/jquery.flot.stack.js:80-163 | drawing the sums of the emitted points draws the sum of what the two halves draw |
| `GapMerge.MergeIsOverlay` | loadtest/jmeter/reports/ping.jmx_127.0.0.1_10users_in0s_eachloop100delay0ms/sbadmin2-1.0.7/bower_components/flot/jquery.flot.stack.js:80-163 | without gaps the emitted points are the merged knots of both series on the common domain |
| `BarMerge.BarsMerge` | loadtest/jmeter/reports/ping.jmx_127.0.0.1_10users_in0s_eachloop100delay0ms/sbadmin2-1.0.7/bower_components/flot/jquery.flot.stack.js:80-163 | for sorted bars with any gaps the loop emits every bar once, in order, paired with the bar of the other series that has the same key, with zero before its last key, and with nothing after it |
| `StackGroup.StackedIsSum` | loadtest/jmeter/reports/ping.jmx_127.0.0.1_10users_in0s_eachloop100delay0ms/sbadmin2-1.0.7/bower_components/flot/jquery.flot.stack.js:57-177 | the output denotes exactly the sum of the two piecewise-linear functions, on exactly the overlap of their domains, and the bottom equals the lower series |
| `StackGroup.HorizontalStacksExactlyWhen` | loadtest/jmeter/reports/ping.jmx_127.0.0.1_10users_in0s_eachloop100delay0ms/sbadmin2-1.0.7/bower_components/flot/jquery.flot.stack.js:128-135 | horizontally the output is right if and only if every interpolated point has equal coordinates, since it is pushed key first |
| `StackGroup.HorizontalStackCanFail` | loadtest/jmeter/reports/ping.jmx_127.0.0.1_10users_in0s_eachloop100delay0ms/sbadmin2-1.0.7/bower_components/flot/jquery.flot.stack.js:128-135 | a concrete horizontal stack that comes out wrong |
| `StackGroup.FindMatchingSeries` | loadtest/jmeter/reports/ping.jmx_127.0.0.1_10users_in0s_eachloop100delay0ms/sbadmin2-1.0.7/bower_components/flot/jquery.flot.stack.js:44-55 | the nearest earlier series with the same stack key, or none |
| `StackGroup.NextOfGroup` | loadtest/jmeter/reports/ping.jmx_127.0.0.1_10users_in0s_eachloop100delay0ms/sbadmin2-1.0.7/bower_components/flot/jquery.flot.stack.js:44-63 | stacking on the previous member of a stack of lines turns a partial sum into the next, top and bottom, gaps included |
| `StackGroup.LineStackIsSum` | loadtest/jmeter/reports/ping.jmx_127.0.0.1_10users_in0s_eachloop100delay0ms/sbadmin2-1.0.7/bower_components/flot/jquery.flot.stack.js:44-177 | in a stack of lines of any height every member is the sum of the members up to it |
| `StackGroup.StackAll` | loadtest/jmeter/reports/ping.jmx_127.0.0.1_10users_in0s_eachloop100delay0ms/sbadmin2-1.0.7/bower_components/flot/jquery.flot.stack.js:44-177 | running the hook over all series, with gaps anywhere: every member of a stack comes out stacked on what its predecessor came out as, lines and bars in any mixture; in a stack of lines each draws the sum of the members up to it exactly where all of them are drawn, with the sum below it as its bottom; series without a stack key stay as they are, whatever they contain |
| `BarPile.BarsAreRaised` | loadtest/jmeter/reports/ping.jmx_127.0.0.1_10users_in0s_eachloop100delay0ms/sbadmin2-1.0.7/bower_components/flot/jquery.flot.stack.js:80-163 | stacked bars keep their keys, and each is raised, top and bottom, by the bar with the same key below |
| `BarPile.BarStackPiles` | loadtest/jmeter/reports/ping.jmx_127.0.0.1_10users_in0s_eachloop100delay0ms/sbadmin2-1.0.7/bower_components/flot/jquery.flot.stack.js:44-177 | in a stack of bars each bar comes out as high as its pile: the unbroken run of bars with its key in the members just before it |
| `BarPile.PileIsColumnExactlyWhen` | loadtest/jmeter/reports/ping.jmx_127.0.0.1_10users_in0s_eachloop100delay0ms/sbadmin2-1.0.7/bower_components/flot/jquery.flot.stack.js:44-177 | a pile of positive bars is the whole column of the stack at its key if and only if no member between the lowest bar there and the highest is without one |
| `BarPile.PileCanFail` | loadtest/jmeter/reports/ping.jmx_127.0.0.1_10users_in0s_eachloop100delay0ms/sbadmin2-1.0.7/bower_components/flot/jquery.flot.stack.js:44-177 | three concrete series of which the second has no bar at 1: the third stands on the ground there, inside the first |
| `Overlay.OverlaySpans` | loadtest/jmeter/reports/ping.jmx_127.0.0.1_10users_in0s_eachloop100delay0ms/sbadmin2-1.0.7/bower_components/flot/jquery.flot.stack.js:80-163 | the merged abscissae span exactly the common domain and contain the knots of both series there |
| `Overlay.OverlayDraws` | loadtest/jmeter/reports/ping.jmx_127.0.0.1_10users_in0s_eachloop100delay0ms/sbadmin2-1.0.7/bower_components/flot/jquery.flot.stack.js:80-163 | drawing the merged samples draws both functions and their sum, unchanged by resampling |
| `FillBetween.FindBottomSeries` | loadtest/jmeter/reports/ping.jmx_127.0.0.1_10users_in0s_eachloop100delay0ms/sbadmin2-1.0.7/bower_components/flot/jquery.flot.fillbetween.js:42-60 | the first series with the given id, or else the series with that number, or none |
| `FillBetween.ComputeFillBottoms` | loadtest/jmeter/reports/ping.jmx_127.0.0.1_10users_in0s_eachloop100delay0ms/sbadmin2-1.0.7/bower_components/flot/jquery.flot.fillbetween.js:62-214 | the same merge with the other curve as bottom: for sorted lines with any gaps the band has this curve on top and the other one below exactly where both are drawn; a bar stays as it is and stands on the bar of the other series with the same key, on zero where there is none, and behind the last one as before |
| `FillBetween.FillIsBand` | loadtest/jmeter/reports/ping.jmx_127.0.0.1_10users_in0s_eachloop100delay0ms/sbadmin2-1.0.7/bower_components/flot/jquery.flot.fillbetween.js:62-214 | the filled band draws this curve as its top and the other curve as its bottom, on exactly the common domain |
| `Threshold.ThresholdData` | loadtest/jmeter/reports/ping.jmx_127.0.0.1_10users_in0s_eachloop100delay0ms/sbadmin2-1.0.7/bower_components/flot/jquery.flot.threshold.js:51-113 | the loop that switches between the two lists yields the two outputs; without crossing points (bars, points) they are the points at or above the level and those below it, each in their order and without gaps |
| `Threshold.SplitKeepsDrawing` | loadtest/jmeter/reports/ping.jmx_127.0.0.1_10users_in0s_eachloop100delay0ms/sbadmin2-1.0.7/bower_components/flot/jquery.flot.threshold.js:69-101 | each output draws exactly the pieces of the original polyline on its side of the level, in order |
| `Threshold.OutputsPartition` | loadtest/jmeter/reports/ping.jmx_127.0.0.1_10users_in0s_eachloop100delay0ms/sbadmin2-1.0.7/bower_components/flot/jquery.flot.threshold.js:69-101 | the pieces of the two outputs together are the original edges, each once, cut where they cross the level |
| `Threshold.CrossingOnEdge` | loadtest/jmeter/reports/ping.jmx_127.0.0.1_10users_in0s_eachloop100delay0ms/sbadmin2-1.0.7/bower_components/flot/jquery.flot.threshold.js:79-95 | a crossing point lies on the original edge and on the level, and the division is defined |
| `Threshold.VerticesConserved` | loadtest/jmeter/reports/ping.jmx_127.0.0.1_10users_in0s_eachloop100delay0ms/sbadmin2-1.0.7/bower_components/flot/jquery.flot.threshold.js:69-101 | every original point appears once over both outputs, and every crossing point once in each |
| `Threshold.SideVertices` | loadtest/jmeter/reports/ping.jmx_127.0.0.1_10users_in0s_eachloop100delay0ms/sbadmin2-1.0.7/bower_components/flot/jquery.flot.threshold.js:69-101 | with crossing points each output has exactly the points of its own side and one point for every crossing |
| `Threshold.OutputsStayOnSide` | loadtest/jmeter/reports/ping.jmx_127.0.0.1_10users_in0s_eachloop100delay0ms/sbadmin2-1.0.7/bower_components/flot/jquery.flot.threshold.js:69-101 | each output stays on its side of the level |
| `Clip.ClipSideKeepsPart` | loadtest/jmeter/reports/ping.jmx_127.0.0.1_10users_in0s_eachloop100delay0ms/sbadmin2-1.0.7/bower_components/flot/jquery.flot.js:2254-2266 | one clipping block keeps exactly the parameters of the segment on its side, and drops it exactly when there are none, without dividing by zero |
| `Clip.ClippedIsIntersection` | loadtest/jmeter/reports/ping.jmx_127.0.0.1_10users_in0s_eachloop100delay0ms/sbadmin2-1.0.7/bower_components/flot/jquery.flot.js:2254-2309 | the four blocks drop a segment exactly when it misses the axis box and otherwise leave exactly its intersection with the box, in its direction, for every segment and box |
| `PlotLine.FourBlocks` | loadtest/jmeter/reports/ping.jmx_127.0.0.1_10users_in0s_eachloop100delay0ms/sbadmin2-1.0.7/bower_components/flot/jquery.flot.js:2254-2309 | the blocks as the source writes them, one after the other, compute that clipping |
| `PlotLine.PlotLine` | loadtest/jmeter/reports/ping.jmx_127.0.0.1_10users_in0s_eachloop100delay0ms/sbadmin2-1.0.7/bower_components/flot/jquery.flot.js:2241-2319 | the path drawn for a series is exactly the visible parts of its gap-free joints in order, although a moveTo is left out when the pen is already there |
| `AreaSweep.PlotLineArea` | loadtest/jmeter/reports/ping.jmx_127.0.0.1_10users_in0s_eachloop100delay0ms/sbadmin2-1.0.7/bower_components/flot/jquery.flot.js:2321-2461 | the two-way loop terminates for every point array with any gaps, and emits, run by run, the top forwards, the bottom backwards and one fill, skipping no run |
| `AreaSweep.BottomIsNearestZero` | loadtest/jmeter/reports/ping.jmx_127.0.0.1_10users_in0s_eachloop100delay0ms/sbadmin2-1.0.7/bower_components/flot/jquery.flot.js:2321-2330 | areas rise from the visible level that is nearest to zero |
| `AreaSweep.SweepIsBracketed` | loadtest/jmeter/reports/ping.jmx_127.0.0.1_10users_in0s_eachloop100delay0ms/sbadmin2-1.0.7/bower_components/flot/jquery.flot.js:2331-2461 | every beginPath is followed by exactly one fill before the next, and nothing is drawn outside such a pair |
| `AreaSweep.ClipXReversed` | loadtest/jmeter/reports/ping.jmx_127.0.0.1_10users_in0s_eachloop100delay0ms/sbadmin2-1.0.7/bower_components/flot/jquery.flot.js:2364-2392 | an edge that was visible on the way forward is visible on the way back, whatever its ordinates |
| `AreaShape.EdgeLinesDrawClamped` | loadtest/jmeter/reports/ping.jmx_127.0.0.1_10users_in0s_eachloop100delay0ms/sbadmin2-1.0.7/bower_components/flot/jquery.flot.js:2401-2460 | the lines emitted for an edge, through all clipping cases and flat parts, draw exactly the edge with its ordinates clamped to the vertical range |
| `AreaShape.VisibleEdgeDraws` | loadtest/jmeter/reports/ping.jmx_127.0.0.1_10users_in0s_eachloop100delay0ms/sbadmin2-1.0.7/bower_components/flot/jquery.flot.js:2364-2460 | an edge is dropped exactly when it misses the horizontal range, and otherwise drawn exactly there, clamped |
| `AreaOutline.WalkDraws` | loadtest/jmeter/reports/ping.jmx_127.0.0.1_10users_in0s_eachloop100delay0ms/sbadmin2-1.0.7/bower_components/flot/jquery.flot.js:2364-2460 | the edges of one side of a run, clipped and clamped one by one, join to one path that draws exactly that side, clamped, in the horizontal range |
| `AreaOutline.RunDrawsOutline` | loadtest/jmeter/reports/ping.jmx_127.0.0.1_10users_in0s_eachloop100delay0ms/sbadmin2-1.0.7/bower_components/flot/jquery.flot.js:2331-2461 | a whole run draws nothing if it misses the horizontal range, and else one closed outline: up to the clamped top, along it, straight down, back along the clamped bottom, and to the start; top and bottom are drawn exactly in the horizontal range |
| `TextCache.SweptShowsExactly` | loadtest/jmeter/reports/ping.jmx_127.0.0.1_10users_in0s_eachloop100delay0ms/sbadmin2-1.0.7/bower_components/flot/jquery.flot.js:183-231 | when every cached position is wanted and rendered, the attached elements are exactly one per requested layer, style, text and place |
| `TextCache.NewPosition` | loadtest/jmeter/reports/ping.jmx_127.0.0.1_10users_in0s_eachloop100delay0ms/sbadmin2-1.0.7/bower_components/flot/jquery.flot.js:433-454 | a new position gets an element no other position has, and keeps the cache consistent |
| `TextCache.ChangeActive` | loadtest/jmeter/reports/ping.jmx_127.0.0.1_10users_in0s_eachloop100delay0ms/sbadmin2-1.0.7/bower_components/flot/jquery.flot.js:423-431 | re-adding or removing a text only flips marks, and changes the requested set accordingly |
| `TextCache.SweptEntry` | loadtest/jmeter/reports/ping.jmx_127.0.0.1_10users_in0s_eachloop100delay0ms/sbadmin2-1.0.7/bower_components/flot/jquery.flot.js:196-226 | sweeping one text keeps the requested positions and detaches the others |
| `TextOverlay.Canvas.GetTextInfo` | loadtest/jmeter/reports/ping.jmx_127.0.0.1_10users_in0s_eachloop100delay0ms/sbadmin2-1.0.7/bower_components/flot/jquery.flot.js:318-382 | a text is measured and cached once, in an element outside the page; the page and the requested texts do not change |
| `TextOverlay.Canvas.AddText` | loadtest/jmeter/reports/ping.jmx_127.0.0.1_10users_in0s_eachloop100delay0ms/sbadmin2-1.0.7/bower_components/flot/jquery.flot.js:404-455 | the text joins the requests at the place where its box begins, is centred or ends at the given point in each direction, as aligned; adding it again changes nothing, and a text measured before keeps its size |
| `TextOverlay.Canvas.RemoveLayer` | loadtest/jmeter/reports/ping.jmx_127.0.0.1_10users_in0s_eachloop100delay0ms/sbadmin2-1.0.7/bower_components/flot/jquery.flot.js:477-494 | all texts of the layer, and only those, are no longer requested |
| `TextOverlay.Canvas.RemoveText` | loadtest/jmeter/reports/ping.jmx_127.0.0.1_10users_in0s_eachloop100delay0ms/sbadmin2-1.0.7/bower_components/flot/jquery.flot.js:495-502 | one place of one text is no longer requested |
| `TextOverlay.Canvas.Render` | loadtest/jmeter/reports/ping.jmx_127.0.0.1_10users_in0s_eachloop100delay0ms/sbadmin2-1.0.7/bower_components/flot/jquery.flot.js:183-231 | after a render the page shows exactly what clear-and-redraw would show, each text once, and no empty entry stays cached |
| `TextOverlay.Canvas.RenderPositions` | loadtest/jmeter/reports/ping.jmx_127.0.0.1_10users_in0s_eachloop100delay0ms/sbadmin2-1.0.7/bower_components/flot/jquery.flot.js:204-222 | scanning a list while splicing out of it attaches, keeps and detaches the right positions |
| `HashBuckets.PutEntryMeans` | loadtest/jmeter/reports/ping.jmx_127.0.0.1_10users_in0s_eachloop100delay0ms/content/js/hashtable.js:216-245 | within a bucket, adding or replacing an entry changes the lookup of that key only |
| `HashBuckets.RemoveEntryMeans` | loadtest/jmeter/reports/ping.jmx_127.0.0.1_10users_in0s_eachloop100delay0ms/content/js/hashtable.js:133-140 | within a bucket, removing an entry changes the lookup of that key only |
| `HashContents.PutMeans` | loadtest/jmeter/reports/ping.jmx_127.0.0.1_10users_in0s_eachloop100delay0ms/content/js/hashtable.js:216-245 | put keeps the invariant and updates the abstract map at the key and nowhere else |
| `HashContents.PutKeepsKey` | loadtest/jmeter/reports/ping.jmx_127.0.0.1_10users_in0s_eachloop100delay0ms/content/js/hashtable.js:216-245 | of equal keys the table keeps the first one put, or with replaceDuplicateKey the last |
| `HashContents.RemoveMeans` | loadtest/jmeter/reports/ping.jmx_127.0.0.1_10users_in0s_eachloop100delay0ms/content/js/hashtable.js:309-331 | remove keeps the invariant and deletes the key from the abstract map and nothing else, dropping an emptied bucket |
| `HashListing.ListingMeans` | loadtest/jmeter/reports/ping.jmx_127.0.0.1_10users_in0s_eachloop100delay0ms/content/js/hashtable.js:295-307 | the listed entries hold every key once, and looking a key up in them is looking it up in the table |
| `HashListing.KeysPigeonhole` | loadtest/jmeter/reports/ping.jmx_127.0.0.1_10users_in0s_eachloop100delay0ms/content/js/hashtable.js:351-365 | if the keys of one table occur in another of the same size, the converse holds as well |
| `HashListing.EqualsMeans` | loadtest/jmeter/reports/ping.jmx_127.0.0.1_10users_in0s_eachloop100delay0ms/content/js/hashtable.js:351-365 | same size and one-way lookup is equivalent to equality of the two maps |
| `HashListing.PutAllStep` | loadtest/jmeter/reports/ping.jmx_127.0.0.1_10users_in0s_eachloop100delay0ms/content/js/hashtable.js:367-382 | one step of putAll extends the right-biased union by one entry |
| `HashTable.Hashtable.Put` | loadtest/jmeter/reports/ping.jmx_127.0.0.1_10users_in0s_eachloop100delay0ms/content/js/hashtable.js:216-245 | both structures stay in step, the map is updated, and the previous value is returned; a null key or value throws and changes nothing |
| `HashTable.Hashtable.Get` | loadtest/jmeter/reports/ping.jmx_127.0.0.1_10users_in0s_eachloop100delay0ms/content/js/hashtable.js:247-263 | the value of the abstract map at the key |
| `HashTable.Hashtable.ContainsKey` | loadtest/jmeter/reports/ping.jmx_127.0.0.1_10users_in0s_eachloop100delay0ms/content/js/hashtable.js:265-273 | true exactly for the keys of the abstract map |
| `HashTable.Hashtable.ContainsValue` | loadtest/jmeter/reports/ping.jmx_127.0.0.1_10users_in0s_eachloop100delay0ms/content/js/hashtable.js:275-284 | true exactly when some key has the value |
| `HashTable.Hashtable.IsEmpty` | loadtest/jmeter/reports/ping.jmx_127.0.0.1_10users_in0s_eachloop100delay0ms/content/js/hashtable.js:291-293 | true exactly when the abstract map is empty |
| `HashTable.Hashtable.Clear` | loadtest/jmeter/reports/ping.jmx_127.0.0.1_10users_in0s_eachloop100delay0ms/content/js/hashtable.js:286-289 | the table becomes empty, in both structures |
| `HashTable.Hashtable.Remove` | loadtest/jmeter/reports/ping.jmx_127.0.0.1_10users_in0s_eachloop100delay0ms/content/js/hashtable.js:309-331 | both structures stay in step, the key is deleted, and its value is returned |
| `HashTable.Hashtable.Size` | loadtest/jmeter/reports/ping.jmx_127.0.0.1_10users_in0s_eachloop100delay0ms/content/js/hashtable.js:333-339 | the number of listed entries, hence of keys |
| `HashTable.ListedKeys` | loadtest/jmeter/reports/ping.jmx_127.0.0.1_10users_in0s_eachloop100delay0ms/content/js/hashtable.js:295-305 | the listed keys are pairwise different and are exactly the keys of the map |
| `HashTable.Hashtable.Equals` | loadtest/jmeter/reports/ping.jmx_127.0.0.1_10users_in0s_eachloop100delay0ms/content/js/hashtable.js:351-365 | true exactly when the two tables stand for the same map |
| `HashTable.Hashtable.PutAll` | loadtest/jmeter/reports/ping.jmx_127.0.0.1_10users_in0s_eachloop100delay0ms/content/js/hashtable.js:367-382 | without a callback, right-biased union, also when a table is merged into itself |
| `HashTable.Hashtable.Clone` | loadtest/jmeter/reports/ping.jmx_127.0.0.1_10users_in0s_eachloop100delay0ms/content/js/hashtable.js:384-388 | a new table with the same map that shares no bucket; the original is not modified |
| `Upload.NextKeeps` | DemoApp/run/standalone_prod/docroot/web-resources/scripts/websocket_custom.js:314-361 | every step of client, network and server keeps the protocol invariant |
| `Upload.RunKeeps` | DemoApp/run/standalone_prod/docroot/web-resources/scripts/websocket_custom.js:176-229 | the invariant holds after every run |
| `Upload.UploadIsSafe` | DemoApp/run/standalone_prod/docroot/web-resources/scripts/websocket_custom.js:314-361 | in every reachable state the sent chunks are the prefix of the file up to the offset, at most one of read, chunk and acknowledgement is under way, completion is announced at most once and only after every byte in ceil(size / chunk size) rounds |
| `Upload.StepMakesProgress` | DemoApp/run/standalone_prod/docroot/web-resources/scripts/websocket_custom.js:314-361 | every step brings the upload strictly nearer to its end |
| `Upload.StuckIsOver` | DemoApp/run/standalone_prod/docroot/web-resources/scripts/websocket_custom.js:341-361 | the system only comes to rest when the upload is over |
| `Upload.UploadEnds` | DemoApp/run/standalone_prod/docroot/web-resources/scripts/websocket_custom.js:314-361 | every run has at most three steps per round and a few more, and one that cannot go on has completed the upload |
| `Upload.RoundsOfSizes` | DemoApp/run/standalone_prod/docroot/web-resources/scripts/websocket_custom.js:314-361 | a round carries 64 KiB: files of 1, 65536 and 65537 bytes take 1, 1 and 2 rounds |
| `Upload.EmptyUploadKeepsFile` | DemoApp/run/standalone_prod/docroot/web-resources/scripts/websocket_custom.js:341-361 | a concrete run: an empty file is announced as complete once, the system comes to rest, and the client still holds the file |
| `UploadChat.StepIsQuiet` | DemoApp/run/standalone_prod/docroot/web-resources/scripts/websocket_custom.js:176-229 | with chat and download messages arriving at any time, every step is a step of the upload or does not touch it |
| `UploadChat.ChattyUploadIsSafe` | DemoApp/run/standalone_prod/docroot/web-resources/scripts/websocket_custom.js:176-229 | the safety of the upload holds in every run with such messages in between |
| `UploadChat.ChattyUploadEnds` | DemoApp/run/standalone_prod/docroot/web-resources/scripts/websocket_custom.js:176-361 | in every run with such messages at most three steps per round and a few more concern the upload, and when no step but further messages is possible the upload is over |
| `UploadClient.WebSocketClient.ApiSendFile` | DemoApp/run/standalone_prod/docroot/web-resources/scripts/websocket_custom.js:314-331 | announces the file with its size, starts at offset 0 with chunks of 65536 bytes, and asks for the first slice, or announces completion of an empty file |
| `UploadClient.WebSocketClient.UtilSendNextChunk` | DemoApp/run/standalone_prod/docroot/web-resources/scripts/websocket_custom.js:341-361 | asks for the next slice of at most chunkSize bytes, or announces completion at or past the end; the other fields stay |
| `UploadClient.WebSocketClient.OnReaderLoad` | DemoApp/run/standalone_prod/docroot/web-resources/scripts/websocket_custom.js:356-359 | sends the slice that was read and moves the offset on |
| `UploadClient.WebSocketClient.OnTextResponse` | DemoApp/run/standalone_prod/docroot/web-resources/scripts/websocket_custom.js:176-229 | an acknowledgement asks for the next slice, an audit result ends the upload, and an acknowledgement without a file throws |
| `Ticks.SetRange` | loadtest/jmeter/reports/ping.jmx_127.0.0.1_10users_in0s_eachloop100delay0ms/sbadmin2-1.0.7/bower_components/flot/jquery.flot.js:1644-1681 | with a margin that is not negative the range is proper exactly when the requested limits are not reversed, and only widened; a negative margin keeps it proper exactly when less than the whole range is taken away; fixed limits are kept, no margin carries one-sided data across zero; a single value is widened by 0.01, zero by 1, and an axis without data shows -1 to 1 |
| `Powers.FloorLog10` | loadtest/jmeter/reports/ping.jmx_127.0.0.1_10users_in0s_eachloop100delay0ms/sbadmin2-1.0.7/bower_components/flot/jquery.flot.js:1696 | the exact floor of the decimal logarithm |
| `Powers.FloorLog10IsUnique` | loadtest/jmeter/reports/ping.jmx_127.0.0.1_10users_in0s_eachloop100delay0ms/sbadmin2-1.0.7/bower_components/flot/jquery.flot.js:1696 | no other exponent brackets the number |
| `Ticks.NiceSize` | loadtest/jmeter/reports/ping.jmx_127.0.0.1_10users_in0s_eachloop100delay0ms/sbadmin2-1.0.7/bower_components/flot/jquery.flot.js:1695-1722 | the size is 1, 2, 2.5, 5 or 10 units, with cuts at 1.5, 2.25, 3 and 7.5 units and 2.5 only where the decimals allow it; it exceeds two thirds of delta, is at most five thirds of it when decimals are free, and is a whole number of units at every precision that the decimals allow |
| `Ticks.NiceIsNearest` | loadtest/jmeter/reports/ping.jmx_127.0.0.1_10users_in0s_eachloop100delay0ms/sbadmin2-1.0.7/bower_components/flot/jquery.flot.js:1695-1722 | of 1, 2, 5, 10 and where allowed 2.5 units the chosen size is the nearest to delta, except from 3 units to the middle between 5 and the next smaller candidate, where it is 5 |
| `Ticks.NiceDecimals` | loadtest/jmeter/reports/ping.jmx_127.0.0.1_10users_in0s_eachloop100delay0ms/sbadmin2-1.0.7/bower_components/flot/jquery.flot.js:1695-1722 | no fewer decimals than computed express the size, except one less for 10 units |
| `Ticks.SetupTickGeneration` | loadtest/jmeter/reports/ping.jmx_127.0.0.1_10users_in0s_eachloop100delay0ms/sbadmin2-1.0.7/bower_components/flot/jquery.flot.js:1683-1730 | the size is the nice one, or minTickSize where that is larger, or an explicit tickSize; without a tickDecimals option the decimals shown are those of the nice size, at least none, and a computed size is a whole number of units of the last decimal shown |
| `TickGenerator.FloorInBaseIs` | loadtest/jmeter/reports/ping.jmx_127.0.0.1_10users_in0s_eachloop100delay0ms/sbadmin2-1.0.7/bower_components/flot/jquery.flot.js:3164-3166 | the rounded value is the multiple of a positive base that is at most n and less than one base below it |
| `TickGenerator.GeneratorEndsExactlyWhen` | loadtest/jmeter/reports/ping.jmx_127.0.0.1_10users_in0s_eachloop100delay0ms/sbadmin2-1.0.7/bower_components/flot/jquery.flot.js:1752-1757 | the loop ends if and only if the tick size is positive or the first tick, min rounded down to a multiple of the size, already reaches the maximum |
| `TickGenerator.NegativeTickSizeCanFail` | loadtest/jmeter/reports/ping.jmx_127.0.0.1_10users_in0s_eachloop100delay0ms/sbadmin2-1.0.7/bower_components/flot/jquery.flot.js:1752-1757 | on [1, 10] a tick size of -1 never ends, and one of -100 ends at once |
| `TickGenerator.GenerateTicks` | loadtest/jmeter/reports/ping.jmx_127.0.0.1_10users_in0s_eachloop100delay0ms/sbadmin2-1.0.7/bower_components/flot/jquery.flot.js:1744-1759 | whenever the loop ends: for a positive size evenly spaced ticks, the first in (min - size, min], and the last alone at or above max; for a negative one the first tick alone |
| `TickGenerator.TickCount` | loadtest/jmeter/reports/ping.jmx_127.0.0.1_10users_in0s_eachloop100delay0ms/sbadmin2-1.0.7/bower_components/flot/jquery.flot.js:1744-1759 | fewer than (max - min) / size + 3 ticks |
| `TickGenerator.SetTicks` | loadtest/jmeter/reports/ping.jmx_127.0.0.1_10users_in0s_eachloop100delay0ms/sbadmin2-1.0.7/bower_components/flot/jquery.flot.js:1823-1826 | without a tickSize option fewer than 1.5 * noTicks + 3 ticks, each of which the shown decimals express exactly; a positive tickSize covers the range with its ticks, a negative one for which the loop ends gives its first tick |
| `TickGenerator.SnapRangeToTicks` | loadtest/jmeter/reports/ping.jmx_127.0.0.1_10users_in0s_eachloop100delay0ms/sbadmin2-1.0.7/bower_components/flot/jquery.flot.js:1855-1863 | snapping only widens, by less than one tick on either side, and leaves fixed limits alone |
| `TickGenerator.SnappedIsStable` | loadtest/jmeter/reports/ping.jmx_127.0.0.1_10users_in0s_eachloop100delay0ms/sbadmin2-1.0.7/bower_components/flot/jquery.flot.js:1855-1863 | a snapped range has the ticks it was snapped to |
| `AxisTransform.TransformsAreInverse` | loadtest/jmeter/reports/ping.jmx_127.0.0.1_10users_in0s_eachloop100delay0ms/sbadmin2-1.0.7/bower_components/flot/jquery.flot.js:1366-1396 | c2p and p2c are inverse to each other in both orders, for both directions, also for reversed limits |
| `AxisTransform.EndsOfCanvas` | loadtest/jmeter/reports/ping.jmx_127.0.0.1_10users_in0s_eachloop100delay0ms/sbadmin2-1.0.7/bower_components/flot/jquery.flot.js:1374-1385 | x grows from the lower limit at 0, y falls from the upper limit at 0 |
| `Navigate.ZoomMagnifies` | loadtest/jmeter/reports/ping.jmx_127.0.0.1_10users_in0s_eachloop100delay0ms/sbadmin2-1.0.7/bower_components/flot/jquery.flot.navigate.js:219-249 | zooming multiplies the canvas distance of every datum from the center by the amount |
| `Navigate.ZoomKeepsCenter` | loadtest/jmeter/reports/ping.jmx_127.0.0.1_10users_in0s_eachloop100delay0ms/sbadmin2-1.0.7/bower_components/flot/jquery.flot.navigate.js:219-249 | the datum under the center stays under it |
| `Navigate.CenterStaysExactlyWhen` | loadtest/jmeter/reports/ping.jmx_127.0.0.1_10users_in0s_eachloop100delay0ms/sbadmin2-1.0.7/bower_components/flot/jquery.flot.navigate.js:219-249 | the datum under the center keeps its place exactly for a positive amount or the middle of the plot: a negative amount mirrors it |
| `Navigate.NegativeAmountCanFail` | loadtest/jmeter/reports/ping.jmx_127.0.0.1_10users_in0s_eachloop100delay0ms/sbadmin2-1.0.7/bower_components/flot/jquery.flot.navigate.js:219-249 | a concrete zoom by a negative amount moves the datum under the center away |
| `Navigate.ZoomsCompose` | loadtest/jmeter/reports/ping.jmx_127.0.0.1_10users_in0s_eachloop100delay0ms/sbadmin2-1.0.7/bower_components/flot/jquery.flot.navigate.js:208-269 | two zooms around one center are one zoom by the product of the amounts |
| `Navigate.ZoomOutRestores` | loadtest/jmeter/reports/ping.jmx_127.0.0.1_10users_in0s_eachloop100delay0ms/sbadmin2-1.0.7/bower_components/flot/jquery.flot.navigate.js:197-206 | zooming out at the center of a zoom restores the range |
| `Navigate.ZoomOutRestoresExactlyWhen` | loadtest/jmeter/reports/ping.jmx_127.0.0.1_10users_in0s_eachloop100delay0ms/sbadmin2-1.0.7/bower_components/flot/jquery.flot.navigate.js:197-206 | the inverse amount at the same center restores a range exactly for a positive amount or the middle of the plot |
| `Navigate.ConfinedIsIntersection` | loadtest/jmeter/reports/ping.jmx_127.0.0.1_10users_in0s_eachloop100delay0ms/sbadmin2-1.0.7/bower_components/flot/jquery.flot.navigate.js:251-259 | a panRange leaves exactly the data that the zoomed range shows and the panRange allows |
| `Navigate.ConfinedProperExactlyWhen` | loadtest/jmeter/reports/ping.jmx_127.0.0.1_10users_in0s_eachloop100delay0ms/sbadmin2-1.0.7/bower_components/flot/jquery.flot.navigate.js:251-259 | confining leaves a proper range exactly when neither end of the range lies beyond the opposite limit of the panRange, which is when they have a datum in common |
| `Navigate.PanKeepsWidth` | loadtest/jmeter/reports/ping.jmx_127.0.0.1_10users_in0s_eachloop100delay0ms/sbadmin2-1.0.7/bower_components/flot/jquery.flot.navigate.js:289-317 | panning keeps the width of the range, under all clamps |
| `Navigate.PanStaysInsideExactlyWhen` | loadtest/jmeter/reports/ping.jmx_127.0.0.1_10users_in0s_eachloop100delay0ms/sbadmin2-1.0.7/bower_components/flot/jquery.flot.navigate.js:300-314 | the range ends inside the panRange exactly when it fits there |
| `Navigate.PanEndsAt` | loadtest/jmeter/reports/ping.jmx_127.0.0.1_10users_in0s_eachloop100delay0ms/sbadmin2-1.0.7/bower_components/flot/jquery.flot.navigate.js:289-317 | a pan ends at the upper wall when it would go beyond it or the range does not fit, else at the lower wall when it would go beyond that, and else where it was asked to |
| `Navigate.PanTranslates` | loadtest/jmeter/reports/ping.jmx_127.0.0.1_10users_in0s_eachloop100delay0ms/sbadmin2-1.0.7/bower_components/flot/jquery.flot.navigate.js:289-317 | a pan that hits no wall moves every datum by the requested canvas distance |
| `PlotNavigation.Axis.Zoom` | loadtest/jmeter/reports/ping.jmx_127.0.0.1_10users_in0s_eachloop100delay0ms/sbadmin2-1.0.7/bower_components/flot/jquery.flot.navigate.js:232-269 | the options of one axis are set to the zoomed and confined range, or left alone when zooming is off or refused |
| `PlotNavigation.Axis.Pan` | loadtest/jmeter/reports/ping.jmx_127.0.0.1_10users_in0s_eachloop100delay0ms/sbadmin2-1.0.7/bower_components/flot/jquery.flot.navigate.js:289-317 | the options of one axis are set to the panned range, or left alone when panning is off |
| `PlotNavigation.Axis.SetUp` | loadtest/jmeter/reports/ping.jmx_127.0.0.1_10users_in0s_eachloop100delay0ms/sbadmin2-1.0.7/bower_components/flot/jquery.flot.js:1644-1681 | given limits become the range, equal ones widened, and the transforms fit it |
| `PlotNavigation.Plot.Zoom` | loadtest/jmeter/reports/ping.jmx_127.0.0.1_10users_in0s_eachloop100delay0ms/sbadmin2-1.0.7/bower_components/flot/jquery.flot.navigate.js:208-276 | after the loop and setupGrid every axis shows its zoomed range; an axis without limits is magnified by the given or default amount, a horizontal one around the left and a vertical one around the top of the center, or around the middle of the plot |
| `PlotNavigation.Plot.ZoomOut` | loadtest/jmeter/reports/ping.jmx_127.0.0.1_10users_in0s_eachloop100delay0ms/sbadmin2-1.0.7/bower_components/flot/jquery.flot.navigate.js:197-206 | the same by the inverse amount, which stays behind in the caller's argument object |
| `PlotNavigation.Plot.Pan` | loadtest/jmeter/reports/ping.jmx_127.0.0.1_10users_in0s_eachloop100delay0ms/sbadmin2-1.0.7/bower_components/flot/jquery.flot.navigate.js:278-324 | after the loop and setupGrid every axis shows its panned range; without a panRange the data of a horizontal axis move by left and those of a vertical one by top, or not at all |
| `PlotNavigation.WindowIsZoomed` | loadtest/jmeter/reports/ping.jmx_127.0.0.1_10users_in0s_eachloop100delay0ms/sbadmin2-1.0.7/bower_components/flot/jquery.flot.navigate.js:219-249 | the canvas window of width / amount around the center holds the data range drawn towards the center |
| `PlotNavigation.ZoomStaysAllowed` | loadtest/jmeter/reports/ping.jmx_127.0.0.1_10users_in0s_eachloop100delay0ms/sbadmin2-1.0.7/bower_components/flot/jquery.flot.navigate.js:232-269 | a zoom around a point of the plot keeps a range that is proper, inside the panRange and of an allowed width so, refused or not |
| `PlotNavigation.ZoomProperExactlyWhen` | loadtest/jmeter/reports/ping.jmx_127.0.0.1_10users_in0s_eachloop100delay0ms/sbadmin2-1.0.7/bower_components/flot/jquery.flot.navigate.js:232-269 | after a zoom by any amount, from a proper or a reversed range, the axis shows a proper range if and only if the panRange is in order and the range that the zoom would show reaches both its limits, unless the zoomRange refuses the confined width, which leaves the range as it was |
| `PlotNavigation.ZoomCanReverse` | loadtest/jmeter/reports/ping.jmx_127.0.0.1_10users_in0s_eachloop100delay0ms/sbadmin2-1.0.7/bower_components/flot/jquery.flot.navigate.js:232-269 | a concrete zoom of [0, 10] with panRange [5, 10] ends with the range from 5 to 2, and the same zoom with a lower zoomRange of 1 is refused |
| `PlotNavigation.PanStaysAllowed` | loadtest/jmeter/reports/ping.jmx_127.0.0.1_10users_in0s_eachloop100delay0ms/sbadmin2-1.0.7/bower_components/flot/jquery.flot.navigate.js:289-317 | so does a pan |
| `PlotNavigation.AfterActions` | loadtest/jmeter/reports/ping.jmx_127.0.0.1_10users_in0s_eachloop100delay0ms/sbadmin2-1.0.7/bower_components/flot/jquery.flot.navigate.js:197-324 | in every run of such zooms and pans every axis stays proper, inside its panRange and of an allowed width |
| `PlotNavigation.PanOutcomeKeepsWidth` | loadtest/jmeter/reports/ping.jmx_127.0.0.1_10users_in0s_eachloop100delay0ms/sbadmin2-1.0.7/bower_components/flot/jquery.flot.navigate.js:289-319 | a pan keeps the width of the range that the axis shows after setupGrid |
| `PlotNavigation.ZoomOutUndoesZoom` | loadtest/jmeter/reports/ping.jmx_127.0.0.1_10users_in0s_eachloop100delay0ms/sbadmin2-1.0.7/bower_components/flot/jquery.flot.navigate.js:197-276 | without limits a zoom and a zoomOut at one center give every axis its range back |
| `PlotNavigation.SecondZoomOutZoomsBack` | loadtest/jmeter/reports/ping.jmx_127.0.0.1_10users_in0s_eachloop100delay0ms/sbadmin2-1.0.7/bower_components/flot/jquery.flot.navigate.js:197-206 | without limits a second zoomOut with the argument object of the first restores a range exactly for a positive amount, a disabled axis or the middle of the plot, and it magnifies exactly for amounts above one |
| `PlotNavigation.Plot.ZoomOutTwice` | loadtest/jmeter/reports/ping.jmx_127.0.0.1_10users_in0s_eachloop100delay0ms/sbadmin2-1.0.7/bower_components/flot/jquery.flot.navigate.js:197-206 | two zoomOut calls with one argument object and a positive amount give every axis without zoomRange and panRange limits its range back, and the object its amount |
| `Luhn.IsValidCreditCardNumber` | DemoApp/run/standalone_prod/docroot/web-resources/scripts/feature2.js:224-247 | accepts exactly the strings of 13 to 19 digits whose positional weighted sum is a multiple of ten |
| `Luhn.UniqueCheckDigit` | DemoApp/run/standalone_prod/docroot/web-resources/scripts/feature2.js:230-246 | every payload of any length has exactly one check digit |
| `Luhn.SingleErrorDetected` | DemoApp/run/standalone_prod/docroot/web-resources/scripts/feature2.js:230-246 | any single-digit change of a passing number fails |
| `Luhn.SwapUndetectedExactlyWhen` | DemoApp/run/standalone_prod/docroot/web-resources/scripts/feature2.js:230-246 | a swap of adjacent digits passes exactly for equal digits and for 0 with 9 |
| `Luhn.SmallNumbers` | DemoApp/run/standalone_prod/docroot/web-resources/scripts/feature2.js:220-247 | 18 and 59 pass and 81 and 19 fail; 1-8 and a padded 18 are normalized to 18 |
| `Luhn.SeparatorCodes` | DemoApp/run/standalone_prod/docroot/web-resources/scripts/feature2.js:220-222 | the removed characters by code point; no digit is among them |
| `Luhn.NormalizeSpaced` | DemoApp/run/standalone_prod/docroot/web-resources/scripts/feature2.js:220-222 | spaces and hyphens inserted anywhere are removed, and nothing else |
| `Luhn.SpacedNormal` | DemoApp/run/standalone_prod/docroot/web-resources/scripts/feature2.js:220-222 | every input is its normal form with separators inserted |
| `Categories.GetNextIndex` | loadtest/jmeter/reports/ping.jmx_127.0.0.1_10users_in0s_eachloop100delay0ms/sbadmin2-1.0.7/bower_components/flot/jquery.flot.categories.js:97-105 | the one index that is one more than the greatest code, and at least 0 |
| `Categories.ExtendedKeeps` | loadtest/jmeter/reports/ping.jmx_127.0.0.1_10users_in0s_eachloop100delay0ms/sbadmin2-1.0.7/bower_components/flot/jquery.flot.categories.js:146-172 | codes once given never change, and the coded labels are the old ones and those met |
| `Categories.ExtendedInjective` | loadtest/jmeter/reports/ping.jmx_127.0.0.1_10users_in0s_eachloop100delay0ms/sbadmin2-1.0.7/bower_components/flot/jquery.flot.categories.js:146-172 | an injective map stays injective, and the running index stays the one getNextIndex would find |
| `Categories.Axis.TransformPointsOnAxis` | loadtest/jmeter/reports/ping.jmx_127.0.0.1_10users_in0s_eachloop100delay0ms/sbadmin2-1.0.7/bower_components/flot/jquery.flot.categories.js:146-172 | the array is rewritten in place: every label of the axis becomes its code, everything else stays; the map is extended in order of first appearance |
| `Categories.CellsAreRewritten` | loadtest/jmeter/reports/ping.jmx_127.0.0.1_10users_in0s_eachloop100delay0ms/sbadmin2-1.0.7/bower_components/flot/jquery.flot.categories.js:146-172 | slot by slot: a slot is untouched when it or the first slot of its point is null or it is not on the axis, and otherwise holds the code of its text, or of the name of its number |
| `Categories.SeriesAreOneRun` | loadtest/jmeter/reports/ping.jmx_127.0.0.1_10users_in0s_eachloop100delay0ms/sbadmin2-1.0.7/bower_components/flot/jquery.flot.categories.js:120-172 | processing series one after another gives the codes of all their labels in one run |
| `Categories.DecodeRestores` | loadtest/jmeter/reports/ping.jmx_127.0.0.1_10users_in0s_eachloop100delay0ms/sbadmin2-1.0.7/bower_components/flot/jquery.flot.categories.js:146-172 | the final map decodes every code written earlier to its label |
| `Categories.RewritingIsUndone` | loadtest/jmeter/reports/ping.jmx_127.0.0.1_10users_in0s_eachloop100delay0ms/sbadmin2-1.0.7/bower_components/flot/jquery.flot.categories.js:146-172 | the rewritten cells of a series decode to the original labels through the map after any further series |
| `Categories.ListCodesMeans` | loadtest/jmeter/reports/ping.jmx_127.0.0.1_10users_in0s_eachloop100delay0ms/sbadmin2-1.0.7/bower_components/flot/jquery.flot.categories.js:126-130 | a list in the options gives each label its last place, injectively |
| `Categories.Axis.SetupCategoriesForAxis` | loadtest/jmeter/reports/ping.jmx_127.0.0.1_10users_in0s_eachloop100delay0ms/sbadmin2-1.0.7/bower_components/flot/jquery.flot.categories.js:120-144 | the option is parsed for the first series only, and its codes, or the last places of its labels, are kept; every series then extends the codes the axis has, and is rewritten by them; an axis in another mode is left alone |

## Left out

- Floating-point rounding: the spline loops that move points "inside the ulp" and the `v != prev` guard of the tick generator only matter there.
- All drawing, DOM, jQuery, canvas, FileReader and WebSocket calls; only the values passed to them are kept.
- Stack.StackData: neighbouring points with equal keys, between which interpolation divides by zero, and series that are not sorted; horizontal lines with gaps, where the exchanged coordinates leave no function to speak of.
- FillBetween.ComputeFillBottoms: neighbouring points with equal keys, and series that are not sorted.
- The `lines.steps` option of the stack and fillbetween plugins, which inserts extra points and is only used on step series, whose neighbouring points have equal keys.
- StackGroup.StackAll: for stacks that mix lines and bars only the step from one member to the next is stated, not a closed form.
- Threshold.ThresholdData: input without gaps and one threshold; the slots after the second are not carried along, and splicing the new series into the plot is not modelled.
- NaturalSpline.SolveSecondDerivatives: after a division by zero JavaScript goes on with Infinity and NaN; the model has the samples at their abscissae, with None for the ordinates.
- The decision in processDatapoints which of the two curves to compute, and its guard against misplaced legacy options.
- AreaSweep.PlotLineArea: the fill style and the final scaling of the commands to canvas coordinates; for runs whose abscissae go back and forth, how the legs between neighbouring edges join after one was clipped is left as the command sequence.
- PlotLine.PlotLine: the offsets of the shadow passes, which shift every point by a constant.
- TextOverlay.Canvas: the nested maps layer, style and text are one map, element measuring is a parameter, elements are placed exactly instead of at whole pixels, and the maximum width that wraps a text is not modelled.
- Ticks.SetupTickGeneration: time mode, tick alignment with another axis, tick formatters, and the estimate of the number of ticks from the plot size, which is a parameter.
- TickGenerator.SetTicks: tick lists and tick functions given in the options.
- CurveSamples.CalculateSplineCurvePoints: data points in strictly increasing order and a positive nrSplinePoints, as the plugin documents them; a segment of length zero divides by zero in the source.
- NaturalSpline.InsertFitPoints: a distance of zero, for which AdjustmentLoop shows that the loop does not end.
- PlotNavigation.Plot.SetupGrid: label measuring and box allocation; the size of the plot is fixed.
- Navigate.ZoomMagnifies: axes with a transform option, whose functions are the caller's.
- HashTable.Hashtable: the `values` and `each` listings; conflict callbacks of putAll, which depend on the truthiness of stored values; the search for a custom hashCode or equals method, whose result is the policy of a table; prototype properties of the index object.
- HashTable.Hashtable.Equals: tables with different hash or equality functions.
- Upload.UploadIsSafe: a second file chosen during an upload, a lost connection, and chat lines that the user sends meanwhile. The server answers as ChatRoomWebSocketHandler does, one acknowledgement per binary frame; its virus scan and transcoding are one nondeterministic result.
- Categories.Axis: data that is not a whole number of points, and labels that name properties of Object.prototype; the conversion of numbers to property names is a parameter.
- Time axes, pie charts, selection, crosshair, error bars, images, resizing, symbols, tooltips and dashboards: event plumbing or drawing, which would add easy members only.
- The Java sources: data transfer objects, configuration and wrappers around libraries, apart from the acknowledgement behaviour above.
