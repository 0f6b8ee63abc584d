/** The axes of a plot as plot.zoom, plot.zoomOut and plot.pan change them (jquery.flot.navigate.js:197-324),
    with the part of setupGrid that turns axis options back into ranges and transforms. */
module PlotNavigation {
  import opened AxisTransform
  import opened Navigate
  import opened Options
  import opened Reals
  import Ticks

  /** The range setRange makes of two given limits: equal limits are widened upwards. */
  function Pinned(direction: Direction, lo: real, hi: real): View {
    View(direction, lo, if lo == hi then lo + (if lo == 0.0 then 1.0 else 0.01) else hi)
  }

  /** Options after a change; as they were when there was none. */
  function ChangedTo(optMin: Option<real>, optMax: Option<real>, change: Option<View>): (Option<real>, Option<real>) {
    if change == None then (optMin, optMax) else (Some(change.value.min), Some(change.value.max))
  }

  /** low and high are the ends of the canvas window that zooming by amount around c enlarges to the plot. */
  ghost predicate IsWindow(low: real, high: real, size: real, c: real, amount: real)
    requires amount != 0.0
  {
    low == c - c / amount && high == c + (size - c) / amount
  }

  class Axis {
    const direction: Direction
    const zoomRange: Limits
    const panRange: Limits
    var optMin: Option<real>
    var optMax: Option<real>
    var min: real
    var max: real
    var scale: real
    var origin: real

    ghost function Shown(): View
      reads this
    {
      View(direction, min, max)
    }

    /** The axis shows a proper range, and no zoomRange or panRange limits it. */
    ghost predicate Unlimited()
      reads this
    {
      min < max && !zoomRange.Range? && !panRange.Range?
    }

    /** The helpers fit the range, and the range fits the options when they give both limits. */
    ghost predicate Ready(size: real)
      reads this
    {
      && min != max
      && scale == Scale(Shown(), size)
      && origin == Origin(Shown())
      && (optMin.Some? && optMax.Some? ==> Shown() == Pinned(direction, optMin.value, optMax.value))
    }

    function ToCanvas(p: real): real
      reads this
    {
      (p - origin) * scale
    }

    function ToData(c: real): real
      requires scale != 0.0
      reads this
    {
      origin + c / scale
    }

    /** setRange and setTransformationHelpers for this axis (jquery.flot.js:1592-1597, 1633-1635). An axis
        without both limits keeps its range: it is recomputed from data and options that did not change. */
    method SetUp(size: real)
      requires size > 0.0
      requires !(optMin.Some? && optMax.Some?) ==> min != max
      modifies this`min, this`max, this`scale, this`origin
      ensures Ready(size)
      ensures !(optMin.Some? && optMax.Some?) ==> Shown() == old(Shown())
    {
      if optMin.Some? && optMax.Some? {
        min, max := Ticks.SetRange(Ticks.AxisOptions(optMin, optMax, None), None, None);
      }
      scale := size / Abs(max - min);
      if direction == X {
        origin := Smaller(max, min);
      } else {
        scale := -scale;
        origin := Larger(max, min);
      }
    }

    /** The data range of a canvas window (242-249). */
    method DataWindow(low: real, high: real, amount: real, ghost size: real, ghost c: real) returns (lo: real, hi: real)
      requires size > 0.0 && amount != 0.0 && Ready(size)
      requires IsWindow(low, high, size, c, amount)
      ensures ZoomedView(Shown(), size, c, amount) == View(direction, lo, hi)
    {
      ScaleTimesSpan(Shown(), size);
      WindowIsZoomed(Shown(), size, c, amount, low, high);
      lo, hi := ToData(low), ToData(high);
      hide Scale, Origin, ZoomedView;
      if lo > hi {
        lo, hi := hi, lo;
      }
    }

    /** The body of the loop over the axes in plot.zoom (232-269). */
    method Zoom(low: real, high: real, amount: real, ghost size: real, ghost c: real)
      requires size > 0.0 && amount != 0.0 && Ready(size)
      requires IsWindow(low, high, size, c, amount)
      modifies this`optMin, this`optMax
      ensures (optMin, optMax)
           == ChangedTo(old(optMin), old(optMax), Zoomed(Shown(), zoomRange, panRange, size, c, amount))
      ensures Shown() == old(Shown())
    {
      hide Scale, Origin, ZoomedView, IsWindow;
      if zoomRange == Disabled {
        return;
      }
      var lo, hi := DataWindow(low, high, amount, size, c);
      if panRange.Range? {
        if panRange.low.Some? && lo < panRange.low.value {
          lo := panRange.low.value;
        }
        if panRange.high.Some? && hi > panRange.high.value {
          hi := panRange.high.value;
        }
      }
      var range := hi - lo;
      if zoomRange.Range? && (
          || (zoomRange.low.Some? && range < zoomRange.low.value && amount > 1.0)
          || (zoomRange.high.Some? && range > zoomRange.high.value && amount < 1.0)) {
        return;
      }
      optMin, optMax := Some(lo), Some(hi);
    }

    /** The body of the loop over the axes in plot.pan (289-317). */
    method Pan(distance: real, ghost size: real)
      requires size > 0.0 && Ready(size)
      modifies this`optMin, this`optMax
      ensures (optMin, optMax) == ChangedTo(old(optMin), old(optMax), Panned(Shown(), panRange, size, distance))
      ensures Shown() == old(Shown())
    {
      hide Scale, Origin, Span, Panned;
      ScaleTimesSpan(Shown(), size);
      var lo, hi := ToData(ToCanvas(min) + distance), ToData(ToCanvas(max) + distance);
      PanOnCanvas(Shown(), panRange, size, distance, origin, lo, hi);
      if panRange == Disabled {
        return;
      }
      if panRange.Range? {
        var d;
        if panRange.low.Some? && panRange.low.value > lo {
          d := panRange.low.value - lo;
          lo := lo + d;
          hi := hi + d;
        }
        if panRange.high.Some? && panRange.high.value < hi {
          d := panRange.high.value - hi;
          lo := lo + d;
          hi := hi + d;
        }
      }
      optMin, optMax := Some(lo), Some(hi);
    }
  }

  /** A datum moved by d on the canvas is moved by d over the scale. */
  lemma ShiftOnCanvas(origin: real, scale: real, p: real, d: real)
    requires scale != 0.0
    ensures origin + ((p - origin) * scale + d) / scale == p + d / scale
  {
  }

  /** The canvas window of a zoom holds the data range of the zoomed view. */
  lemma WindowIsZoomed(v: View, size: real, c: real, amount: real, low: real, high: real)
    requires v.min != v.max && size > 0.0 && amount != 0.0
    requires IsWindow(low, high, size, c, amount)
    requires Scale(v, size) != 0.0
    ensures var a, b := C2p(v, size, low), C2p(v, size, high);
            ZoomedView(v, size, c, amount) == View(v.direction, Smaller(a, b), Larger(a, b))
  {
    var t := UnderFraction(v, size, c);
    var m, k := Origin(v), Span(v);
    var fixed := Under(v, size, c);
    WindowEdge(v, size, c, amount, t, fixed, m, 0.0, low);
    WindowEdge(v, size, c, amount, t, fixed, m + k, 1.0, high);
    hide Under, C2p, Scale, Towards;
  }

  lemma WindowEdge(v: View, size: real, c: real, amount: real, t: real, fixed: real, limit: real, at: real, edge: real)
    requires v.min != v.max && size > 0.0 && amount != 0.0
    requires c == t * size && fixed == Origin(v) + t * Span(v)
    requires limit == Origin(v) + at * Span(v)
    requires edge == c + (at * size - c) / amount
    ensures Scale(v, size) != 0.0
    ensures C2p(v, size, edge) == Towards(fixed, limit, amount)
  {
    hide Scale, Origin, Span, C2p;
    var e := EdgeFraction(Origin(v), Span(v), size, c, amount, t, fixed, limit, at, edge);
    AtFraction(v, size, e, Towards(fixed, limit, amount), edge);
  }

  lemma EdgeFraction(m: real, k: real, size: real, c: real, amount: real, t: real, fixed: real, limit: real, at: real,
                     edge: real)
    returns (e: real)
    requires amount != 0.0
    requires c == t * size && fixed == m + t * k && limit == m + at * k
    requires edge == c + (at * size - c) / amount
    ensures edge == e * size
    ensures Towards(fixed, limit, amount) == m + e * k
  {
    var q := (at - t) / amount;
    e := t + q;
    QuotientTimes(at - t, amount);
    assert q * size * amount == at * size - c by { assert q * size * amount == (q * amount) * size; }
    QuotientIs(q * size, amount, at * size - c);
    assert q * k * amount == limit - fixed by { assert q * k * amount == (q * amount) * k; }
    QuotientIs(q * k, amount, limit - fixed);
  }

  // ---------------------------------------------------------------- the plot

  datatype Center = Center(left: real, top: real)

  /** The argument object of plot.zoom and plot.zoomOut. */
  class ZoomArgs {
    var amount: Option<real>
    var center: Option<Center>
  }

  /** JavaScript's `args.amount || default`. */
  function AmountOr(amount: Option<real>, default: real): real {
    if amount.Some? && amount.value != 0.0 then amount.value else default
  }

  /** JavaScript's `+distance`, with 0 for a missing one. */
  function DistanceOr(distance: Option<real>): real {
    if distance.Some? then distance.value else 0.0
  }

  /** Panning shifts both limits on the canvas. */
  lemma PanOnCanvas(v: View, panRange: Limits, size: real, d: real, origin: real, lo: real, hi: real)
    requires v.min != v.max && size > 0.0 && Scale(v, size) != 0.0
    requires lo == origin + ((v.min - origin) * Scale(v, size) + d) / Scale(v, size)
    requires hi == origin + ((v.max - origin) * Scale(v, size) + d) / Scale(v, size)
    ensures Panned(v, panRange, size, d)
         == if panRange == Disabled then None else Some(PushedBack(View(v.direction, lo, hi), panRange))
  {
    hide Scale;
    ShiftOnCanvas(origin, Scale(v, size), v.min, d);
    ShiftOnCanvas(origin, Scale(v, size), v.max, d);
    hide PushedBack;
    assert View(v.direction, lo, hi) == Shifted(v, d / Scale(v, size));
  }

  /** What an axis shows after its options were set to a new range, or left alone. */
  function Outcome(before: View, change: Option<View>): View {
    if change == None then before else Pinned(before.direction, change.value.min, change.value.max)
  }

  /** Every datum is drawn amount times as far from canvas coordinate c as before. */
  ghost predicate Magnified(before: View, after: View, size: real, c: real, amount: real) {
    && before.min != before.max && after.min != after.max
    && forall p :: P2c(after, size, p) - c == amount * (P2c(before, size, p) - c)
  }

  /** Every datum is drawn d further down the canvas coordinate than before. */
  ghost predicate Translated(before: View, after: View, size: real, d: real) {
    && before.min != before.max && after.min != after.max
    && forall p :: P2c(after, size, p) == P2c(before, size, p) - d
  }

  lemma FreeZoomMagnifies(v: View, zoomRange: Limits, panRange: Limits, size: real, c: real, amount: real)
    requires v.min != v.max && size > 0.0 && 0.0 < amount
    ensures zoomRange == Unset && !panRange.Range? ==>
              Magnified(v, Outcome(v, Zoomed(v, zoomRange, panRange, size, c, amount)), size, c, amount)
  {
    if zoomRange == Unset && !panRange.Range? {
      hide P2c, ZoomedView;
      ZoomMagnifies(v, size, c, amount, 0.0);
      var w := ZoomedView(v, size, c, amount);
      assert Outcome(v, Zoomed(v, zoomRange, panRange, size, c, amount)) == View(v.direction, w.min, w.max);
      ZoomedDirection(v, size, c, amount);
      forall p
        ensures P2c(w, size, p) - c == amount * (P2c(v, size, p) - c)
      {
        ZoomMagnifies(v, size, c, amount, p);
      }
    }
  }

  lemma FreePanTranslates(v: View, panRange: Limits, size: real, d: real)
    requires v.min != v.max && size > 0.0
    ensures panRange == Unset ==> Translated(v, Outcome(v, Panned(v, panRange, size, d)), size, d)
  {
    if panRange == Unset {
      ScaleTimesSpan(v, size);
      PanKeepsWidth(v, panRange, size, d);
      hide P2c, Scale, Span;
      var w := Panned(v, panRange, size, d).value;
      assert Outcome(v, Some(w)) == w;
      forall p
        ensures P2c(w, size, p) == P2c(v, size, p) - d
      {
        PanTranslates(v, panRange, size, d, p);
      }
    }
  }

  class Plot {
    const axes: seq<Axis>
    const width: real
    const height: real
    const zoomAmount: real

    ghost predicate Sound() {
      && width > 0.0 && height > 0.0 && zoomAmount != 0.0
      && forall i, j :: 0 <= i < j < |axes| ==> axes[i] != axes[j]
    }

    ghost predicate Valid()
      reads axes
    {
      Sound() && forall i :: 0 <= i < |axes| ==> axes[i].Ready(Size(axes[i].direction))
    }

    function Size(direction: Direction): real {
      if direction == X then width else height
    }

    function CenterOn(direction: Direction, center: Option<Center>): real {
      var c := if center.Some? then center.value else Center(width / 2.0, height / 2.0);
      if direction == X then c.left else c.top
    }

    /** The part of setupGrid that follows from the axis options (jquery.flot.js:1592-1597, 1633-1635). */
    method SetupGrid()
      requires Sound()
      requires forall i :: 0 <= i < |axes| && !(axes[i].optMin.Some? && axes[i].optMax.Some?) ==>
          axes[i].min != axes[i].max
      modifies axes
      ensures Valid()
      ensures forall i :: 0 <= i < |axes| ==>
                axes[i].optMin == old(axes[i].optMin) && axes[i].optMax == old(axes[i].optMax)
      ensures forall i :: 0 <= i < |axes| && !(axes[i].optMin.Some? && axes[i].optMax.Some?) ==>
                axes[i].Shown() == old(axes[i].Shown())
    {
      for i := 0 to |axes|
        invariant forall j :: 0 <= j < |axes| ==>
                    axes[j].optMin == old(axes[j].optMin) && axes[j].optMax == old(axes[j].optMax)
        invariant forall j :: 0 <= j < |axes| && !(axes[j].optMin.Some? && axes[j].optMax.Some?) ==>
                    axes[j].Shown() == old(axes[j].Shown())
        invariant forall j :: 0 <= j < i ==> axes[j].Ready(Size(axes[j].direction))
      {
        hide *;
        axes[i].SetUp(Size(axes[i].direction));
      }
    }

    function ZoomOf(axis: Axis, v: View, center: Option<Center>, amount: real): Option<View>
      requires v.min != v.max && Sound() && amount != 0.0
    {
      Zoomed(v, axis.zoomRange, axis.panRange, Size(axis.direction), CenterOn(axis.direction, center), amount)
    }

    function PanOf(axis: Axis, v: View, left: Option<real>, top: Option<real>): Option<View>
      requires v.min != v.max && Sound()
    {
      Panned(v, axis.panRange, Size(axis.direction), if axis.direction == X then DistanceOr(left) else DistanceOr(top))
    }

    /** An axis that nothing limits is magnified around the left or top coordinate of the center, or around the
        middle of the plot. */
    ghost predicate ZoomedAround(before: View, after: View, center: Option<Center>, amount: real) {
      match before.direction
      case X => Magnified(before, after, width, if center.Some? then center.value.left else width / 2.0, amount)
      case Y => Magnified(before, after, height, if center.Some? then center.value.top else height / 2.0, amount)
    }

    /** An axis that nothing limits is moved by the left or top distance, if it is given. */
    ghost predicate MovedBy(before: View, after: View, left: Option<real>, top: Option<real>) {
      match before.direction
      case X => Translated(before, after, width, if left.Some? then left.value else 0.0)
      case Y => Translated(before, after, height, if top.Some? then top.value else 0.0)
    }

    /** plot.zoom (208-276): every axis ends up showing what Zoomed makes of it. */
    method Zoom(args: ZoomArgs)
      requires Valid()
      modifies axes
      ensures Valid()
      ensures var amount := AmountOr(args.amount, zoomAmount);
              forall i :: 0 <= i < |axes| ==>
                axes[i].Shown() == Outcome(old(axes[i].Shown()),
                                           ZoomOf(axes[i], old(axes[i].Shown()), args.center, amount))
      ensures var amount := if args.amount == None || args.amount == Some(0.0) then zoomAmount else args.amount.value;
              forall i ::
                0.0 < amount && 0 <= i < |axes| && axes[i].zoomRange == Unset && !axes[i].panRange.Range? ==>
                  ZoomedAround(old(axes[i].Shown()), axes[i].Shown(), args.center, amount)
    {
      hide Scale, Origin, Zoomed, ChangedTo, Pinned, Outcome, IsWindow, ZoomedAround;
      var amount := AmountOr(args.amount, zoomAmount);
      var center := args.center;
      var x, y := CenterOn(X, center), CenterOn(Y, center);
      var xLow, xHigh := Window(x, width, amount);
      var yLow, yHigh := Window(y, height, amount);
      for i := 0 to |axes|
        invariant forall j :: 0 <= j < |axes| ==> axes[j].Shown() == old(axes[j].Shown())
        invariant forall j :: i <= j < |axes| ==> axes[j].Ready(Size(axes[j].direction))
        invariant forall j :: i <= j < |axes| ==>
                    axes[j].optMin == old(axes[j].optMin) && axes[j].optMax == old(axes[j].optMax)
        invariant forall j :: 0 <= j < i ==>
                    (axes[j].optMin, axes[j].optMax)
                    == ChangedTo(old(axes[j].optMin), old(axes[j].optMax),
                                 ZoomOf(axes[j], old(axes[j].Shown()), center, amount))
      {
        var a := axes[i];
        if a.direction == X {
          a.Zoom(xLow, xHigh, amount, width, x);
        } else {
          a.Zoom(yLow, yHigh, amount, height, y);
        }
      }
      SetupGrid();
      forall i | 0 <= i < |axes|
        ensures axes[i].Shown() == Outcome(old(axes[i].Shown()), ZoomOf(axes[i], old(axes[i].Shown()), center, amount))
      {
        OutcomeShows(axes[i], Size(axes[i].direction), old(axes[i].Shown()), old(axes[i].optMin), old(axes[i].optMax),
                     ZoomOf(axes[i], old(axes[i].Shown()), center, amount));
      }
      forall i | 0.0 < amount && 0 <= i < |axes| && axes[i].zoomRange == Unset && !axes[i].panRange.Range?
        ensures ZoomedAround(old(axes[i].Shown()), axes[i].Shown(), center, amount)
      {
        AxisZoomedAround(axes[i], old(axes[i].Shown()), center, amount);
      }
    }

    lemma AxisZoomedAround(axis: Axis, v: View, center: Option<Center>, amount: real)
      requires Sound() && v.min != v.max && v.direction == axis.direction && 0.0 < amount
      requires axis.zoomRange == Unset && !axis.panRange.Range?
      ensures ZoomedAround(v, Outcome(v, ZoomOf(axis, v, center, amount)), center, amount)
    {
      hide Zoomed, Magnified, Outcome;
      FreeZoomMagnifies(v, axis.zoomRange, axis.panRange, Size(axis.direction), CenterOn(axis.direction, center),
                        amount);
    }

    lemma AxisMovedBy(axis: Axis, v: View, left: Option<real>, top: Option<real>)
      requires Sound() && v.min != v.max && v.direction == axis.direction && axis.panRange == Unset
      ensures MovedBy(v, Outcome(v, PanOf(axis, v, left, top)), left, top)
    {
      hide Panned, Translated, Outcome;
      FreePanTranslates(v, axis.panRange, Size(axis.direction),
                        if axis.direction == X then DistanceOr(left) else DistanceOr(top));
    }

    /** plot.zoomOut (197-206) zooms by the inverse amount, which it writes into the caller's object. */
    method ZoomOut(args: ZoomArgs)
      requires Valid()
      modifies axes, args
      ensures Valid()
      ensures var amount := AmountOr(old(args.amount), zoomAmount);
              && 1.0 / amount != 0.0
              && args.amount == Some(1.0 / amount)
              && forall i :: 0 <= i < |axes| ==>
                   axes[i].Shown()
                   == Outcome(old(axes[i].Shown()), ZoomOf(axes[i], old(axes[i].Shown()), args.center, 1.0 / amount))
      ensures args.center == old(args.center)
      ensures var amount :=
                if old(args.amount) == None || old(args.amount) == Some(0.0) then zoomAmount
                else old(args.amount).value;
              forall i ::
                0.0 < amount && 0 <= i < |axes| && axes[i].zoomRange == Unset && !axes[i].panRange.Range? ==>
                  ZoomedAround(old(axes[i].Shown()), axes[i].Shown(), args.center, 1.0 / amount)
    {
      hide Scale, Origin, Zoomed, Pinned, Outcome, ZoomedAround;
      if args.amount == None || args.amount.value == 0.0 {
        args.amount := Some(zoomAmount);
      }
      QuotientTimes(1.0, args.amount.value);
      var inverse := 1.0 / args.amount.value;
      args.amount := Some(inverse);
      if 0.0 < old(AmountOr(args.amount, zoomAmount)) {
        QuotientSign(1.0, AmountOr(old(args.amount), zoomAmount));
      }
      Zoom(args);
    }

    /** A caller that zooms out twice with one argument object undoes the first zoom by the second on every axis
        that is not reversed and has no limits, for a positive amount; the object is as it was. */
    method ZoomOutTwice(args: ZoomArgs)
      requires Valid()
      modifies axes, args
      ensures Valid()
      ensures args.amount == Some(AmountOr(old(args.amount), zoomAmount))
      ensures args.center == old(args.center)
      ensures 0.0 < AmountOr(old(args.amount), zoomAmount) ==>
                forall i :: 0 <= i < |axes| && old(axes[i].Unlimited()) ==> axes[i].Shown() == old(axes[i].Shown())
    {
      hide Scale, Origin, Zoomed, Pinned, Outcome, Axis.Ready;
      forall i | 0 <= i < |axes| && axes[i].Unlimited() && 0.0 < AmountOr(args.amount, zoomAmount)
        ensures TwiceRestores(axes[i], axes[i].Shown(), args.amount, args.center)
      {
        SecondZoomOutZoomsBack(args.amount, zoomAmount, axes[i].Shown(), axes[i].zoomRange, axes[i].panRange,
                               Size(axes[i].direction), CenterOn(axes[i].direction, args.center));
      }
      QuotientTimes(1.0, AmountOr(args.amount, zoomAmount));
      QuotientIs(AmountOr(args.amount, zoomAmount), 1.0 / AmountOr(args.amount, zoomAmount), 1.0);
      ZoomOut(args);
      ZoomOut(args);
    }

    ghost predicate TwiceRestores(axis: Axis, v: View, given: Option<real>, center: Option<Center>)
      requires Sound()
    {
      var amount := AmountOr(given, zoomAmount);
      && v.min != v.max && 1.0 / amount != 0.0 && 1.0 / (1.0 / amount) == amount
      && var once := Outcome(v, ZoomOf(axis, v, center, 1.0 / amount));
      && once.min != once.max && Outcome(once, ZoomOf(axis, once, center, amount)) == v
    }

    /** plot.pan (278-324): every axis ends up showing what Panned makes of it. */
    method Pan(left: Option<real>, top: Option<real>)
      requires Valid()
      modifies axes
      ensures Valid()
      ensures forall i :: 0 <= i < |axes| ==>
                axes[i].Shown() == Outcome(old(axes[i].Shown()), PanOf(axes[i], old(axes[i].Shown()), left, top))
      ensures forall i :: 0 <= i < |axes| && axes[i].panRange == Unset ==>
                MovedBy(old(axes[i].Shown()), axes[i].Shown(), left, top)
    {
      hide Scale, Origin, Panned, ChangedTo, Pinned, Outcome, MovedBy;
      var x, y := DistanceOr(left), DistanceOr(top);
      for i := 0 to |axes|
        invariant forall j :: 0 <= j < |axes| ==> axes[j].Shown() == old(axes[j].Shown())
        invariant forall j :: i <= j < |axes| ==> axes[j].Ready(Size(axes[j].direction))
        invariant forall j :: i <= j < |axes| ==>
                    axes[j].optMin == old(axes[j].optMin) && axes[j].optMax == old(axes[j].optMax)
        invariant forall j :: 0 <= j < i ==>
                    (axes[j].optMin, axes[j].optMax)
                    == ChangedTo(old(axes[j].optMin), old(axes[j].optMax),
                                 PanOf(axes[j], old(axes[j].Shown()), left, top))
      {
        var a := axes[i];
        a.Pan(if a.direction == X then x else y, Size(a.direction));
      }
      SetupGrid();
      forall i | 0 <= i < |axes|
        ensures axes[i].Shown() == Outcome(old(axes[i].Shown()), PanOf(axes[i], old(axes[i].Shown()), left, top))
      {
        OutcomeShows(axes[i], Size(axes[i].direction), old(axes[i].Shown()), old(axes[i].optMin), old(axes[i].optMax),
                     PanOf(axes[i], old(axes[i].Shown()), left, top));
      }
      forall i | 0 <= i < |axes| && axes[i].panRange == Unset
        ensures MovedBy(old(axes[i].Shown()), axes[i].Shown(), left, top)
      {
        AxisMovedBy(axes[i], old(axes[i].Shown()), left, top);
      }
    }

    /** The window of width/amount around c, as fractions of the plot (219-230). */
    method Window(c: real, size: real, amount: real) returns (low: real, high: real)
      requires size > 0.0 && amount != 0.0
      ensures IsWindow(low, high, size, c, amount)
    {
      var f := c / size;
      QuotientTimes(c, size);
      low, high := c - f * size / amount, c + (1.0 - f) * size / amount;
      assert (1.0 - f) * size == size - c;
    }
  }

  lemma OutcomeShows(axis: Axis, size: real, before: View, optMin: Option<real>, optMax: Option<real>,
                     change: Option<View>)
    requires axis.Ready(size)
    requires (axis.optMin, axis.optMax) == ChangedTo(optMin, optMax, change)
    requires before.direction == axis.direction
    requires optMin.Some? && optMax.Some? ==> before == Pinned(axis.direction, optMin.value, optMax.value)
    requires !(axis.optMin.Some? && axis.optMax.Some?) ==> axis.Shown() == before
    ensures axis.Shown() == Outcome(before, change)
  {
  }

  // ---------------------------------------------------------------- what the outcomes mean

  /** Without zoomRange and panRange limits, zooming and then zooming out by the same amount at the same
      center gives every axis its range back; an axis that must not zoom keeps it anyway. */
  lemma ZoomOutUndoesZoom(v: View, zoomRange: Limits, panRange: Limits, size: real, c: real, amount: real)
    requires v.min < v.max && size > 0.0 && 0.0 < amount
    requires !zoomRange.Range? && !panRange.Range?
    ensures 1.0 / amount != 0.0
    ensures var once := Outcome(v, Zoomed(v, zoomRange, panRange, size, c, amount));
            && once.min < once.max
            && Outcome(once, Zoomed(once, zoomRange, panRange, size, c, 1.0 / amount)) == v
  {
    ZoomOutRestores(v, size, c, amount);
    QuotientSign(1.0, amount);
    hide ZoomedView;
  }

  /** A pan that is not switched off keeps the width of a proper range in what the axis then shows. */
  lemma PanOutcomeKeepsWidth(v: View, panRange: Limits, size: real, d: real)
    requires v.min < v.max && size > 0.0
    ensures var w := Outcome(v, Panned(v, panRange, size, d)); w.max - w.min == v.max - v.min
  {
    PanKeepsWidth(v, panRange, size, d);
    hide Panned;
  }

  // ---------------------------------------------------------------- reversed ranges

  /** A zoom that is not refused (239-240, 262-265) leaves a proper range exactly when the range it would show
      without a panRange meets the panRange; else both clamps (252-258) fire past each other. A refused zoom
      leaves the range as it was, which an earlier zoom may have reversed. */
  lemma ZoomProperExactlyWhen(v: View, zoomRange: Limits, panRange: Limits, size: real, c: real, amount: real)
    requires v.min != v.max && size > 0.0 && amount != 0.0
    ensures var z := ZoomedView(v, size, c, amount);
            var w := Outcome(v, Zoomed(v, zoomRange, panRange, size, c, amount));
            w.min < w.max <==>
              if Refused(zoomRange, Confined(z, panRange).max - Confined(z, panRange).min, amount) then v.min < v.max
              else Meets(z, panRange)
  {
    if 0.0 < amount {
      ZoomedFrame(v, size, c, amount);
    } else {
      MirroredFrame(v, size, c, amount);
    }
    hide ZoomedView;
  }

  /** An axis that shows [0, 10] and may show [5, 10], zoomed in by 5 at its left end, comes out reversed; a
      zoomRange that refuses the resulting width leaves it alone. */
  lemma ZoomCanReverse()
    ensures var v, pan := View(X, 0.0, 10.0), Range(Some(5.0), Some(10.0));
            && Outcome(v, Zoomed(v, Unset, pan, 100.0, 0.0, 5.0)) == View(X, 5.0, 2.0)
            && Outcome(v, Zoomed(v, Range(Some(1.0), None), pan, 100.0, 0.0, 5.0)) == v
  {
    hide ZoomedView;
    ExampleWindow();
  }

  lemma ExampleWindow()
    ensures ZoomedView(View(X, 0.0, 10.0), 100.0, 0.0, 5.0) == View(X, 0.0, 2.0)
  {
    hide Under;
    var v := View(X, 0.0, 10.0);
    UnderAtZero(v, 100.0);
    QuotientIs(0.0, 5.0, 0.0);
    QuotientIs(2.0, 5.0, 10.0);
  }

  lemma UnderAtZero(v: View, size: real)
    requires v.min != v.max && size != 0.0
    ensures Under(v, size, 0.0) == Origin(v)
  {
    AtFraction(v, size, 0.0, Origin(v), 0.0);
    hide C2p, Scale, Origin;
  }

  // ---------------------------------------------------------------- zooming out twice

  /** Two calls of zoomOut with one argument object: the first leaves the inverse of its amount there, so the
      second zooms by the amount itself. Without limits an axis that zooms gets its range back exactly for a
      positive amount or in the middle of the plot, and for a positive amount the second call zooms in,
      rather than out, exactly when the amount is above 1. */
  lemma SecondZoomOutZoomsBack(given: Option<real>, default: real, v: View, zoomRange: Limits, panRange: Limits,
                               size: real, c: real)
    requires v.min < v.max && size > 0.0 && default != 0.0 && !zoomRange.Range? && !panRange.Range?
    ensures var amount := AmountOr(given, default);
            && 1.0 / amount != 0.0
            && AmountOr(Some(1.0 / amount), default) == 1.0 / amount
            && 1.0 / AmountOr(Some(1.0 / amount), default) == amount
    ensures var amount := AmountOr(given, default);
            var once := Outcome(v, Zoomed(v, zoomRange, panRange, size, c, 1.0 / amount));
            && once.min < once.max
            && var twice := Outcome(once, Zoomed(once, zoomRange, panRange, size, c, amount));
            && (twice == v <==> zoomRange == Disabled || 0.0 < amount || c == size / 2.0)
            && (zoomRange == Unset && 0.0 < amount ==> (twice.max - twice.min < once.max - once.min <==> 1.0 < amount))
  {
    var amount := AmountOr(given, default);
    QuotientTimes(1.0, amount);
    var inverse := 1.0 / amount;
    QuotientIs(amount, inverse, 1.0);
    ZoomOutRestoresExactlyWhen(v, size, c, inverse);
    InverseSign(amount, inverse);
    if 0.0 < amount {
      ZoomedWidth(v, size, c, inverse);
    }
    hide ZoomedView;
    if zoomRange == Disabled {
      return;
    }
    var once := Outcome(v, Zoomed(v, zoomRange, panRange, size, c, inverse));
    assert once == ZoomedView(v, size, c, inverse);
    var twice := ZoomedView(once, size, c, amount);
    ZoomedProper(once, size, c, amount);
    assert Outcome(once, Zoomed(once, zoomRange, panRange, size, c, amount)) == twice;
    if 0.0 < amount {
      NarrowerWhen(once.max - once.min, v.max - v.min, amount, inverse);
    }
  }

  lemma InverseSign(amount: real, inverse: real)
    requires amount * inverse == 1.0
    ensures 0.0 < amount <==> 0.0 < inverse
  {
    if 0.0 < amount { FactorSign(inverse, amount); }
    if 0.0 < inverse { FactorSign(amount, inverse); }
  }

  lemma ZoomedProper(v: View, size: real, c: real, amount: real)
    requires v.min != v.max && size != 0.0 && amount != 0.0
    ensures ZoomedView(v, size, c, amount).min < ZoomedView(v, size, c, amount).max
    ensures ZoomedView(v, size, c, amount).direction == v.direction
  {
    if 0.0 < amount {
      ZoomedFrame(v, size, c, amount);
    } else {
      MirroredFrame(v, size, c, amount);
    }
  }

  lemma ZoomedWidth(v: View, size: real, c: real, amount: real)
    requires v.min < v.max && size != 0.0 && 0.0 < amount
    ensures var w := ZoomedView(v, size, c, amount); (w.max - w.min) * amount == v.max - v.min
  {
    TowardsKeepsOrder(Under(v, size, c), v.min, v.max, amount);
    hide Under, Towards;
  }

  lemma NarrowerWhen(once: real, width: real, amount: real, inverse: real)
    requires 0.0 < width && 0.0 < amount && amount * inverse == 1.0 && once * inverse == width
    ensures width < once <==> 1.0 < amount
  {
    assert once == width * amount by {
      assert once * inverse * amount == once;
    }
    assert once - width == (amount - 1.0) * width;
    FactorSign(amount - 1.0, width);
    if 1.0 < amount { PositiveProduct(amount - 1.0, width); }
  }

  // ---------------------------------------------------------------- runs of zooms and pans

  /** The range is proper, lies inside the panRange, and has a width that the zoomRange allows. */
  ghost predicate Allowed(v: View, zoomRange: Limits, panRange: Limits) {
    && v.min < v.max
    && Within(v.min, panRange) && Within(v.max, panRange)
    && Within(v.max - v.min, zoomRange)
  }

  /** A center on the plot lies over a datum of the range. */
  lemma UnderInside(v: View, size: real, c: real)
    requires v.min < v.max && size > 0.0 && 0.0 <= c <= size
    ensures v.min <= Under(v, size, c) <= v.max
  {
    var t := UnderFraction(v, size, c);
    hide Under;
    FactorSign(t, size);
    FactorSign(1.0 - t, size);
    NonnegativeProduct(t, v.max - v.min);
    NonnegativeProduct(1.0 - t, v.max - v.min);
  }

  /** Zooming in moves a limit towards the fixed datum but not past it; zooming out moves it away. */
  lemma TowardsInside(fixed: real, limit: real, amount: real)
    requires 0.0 < amount
    ensures 1.0 <= amount && limit <= fixed ==> limit <= Towards(fixed, limit, amount) <= fixed
    ensures 1.0 <= amount && fixed <= limit ==> fixed <= Towards(fixed, limit, amount) <= limit
    ensures amount <= 1.0 && limit <= fixed ==> Towards(fixed, limit, amount) <= limit
    ensures amount <= 1.0 && fixed <= limit ==> limit <= Towards(fixed, limit, amount)
  {
    var d, q := limit - fixed, (limit - fixed) / amount;
    QuotientTimes(d, amount);
    ShrunkBy(q, amount, d);
  }

  lemma ShrunkBy(q: real, amount: real, d: real)
    requires 0.0 < amount && q * amount == d
    ensures 1.0 <= amount && d <= 0.0 ==> d <= q <= 0.0
    ensures 1.0 <= amount && 0.0 <= d ==> 0.0 <= q <= d
    ensures amount <= 1.0 && d <= 0.0 ==> q <= d
    ensures amount <= 1.0 && 0.0 <= d ==> d <= q
  {
    FactorSign(q, amount);
    FactorSign(-q, amount);
    assert d - q == q * (amount - 1.0);
    if 0.0 <= q && 1.0 <= amount { NonnegativeProduct(q, amount - 1.0); }
    if 0.0 <= q && amount <= 1.0 { NonnegativeProduct(q, 1.0 - amount); }
    if q <= 0.0 && 1.0 <= amount { NonnegativeProduct(-q, amount - 1.0); }
    if q <= 0.0 && amount <= 1.0 { NonnegativeProduct(-q, 1.0 - amount); }
  }

  /** A zoom around a point of the plot keeps an allowed range allowed, whether it is refused or not. */
  lemma ZoomStaysAllowed(v: View, zoomRange: Limits, panRange: Limits, size: real, c: real, amount: real)
    requires Allowed(v, zoomRange, panRange) && size > 0.0 && 0.0 <= c <= size && 0.0 < amount
    ensures Allowed(Outcome(v, Zoomed(v, zoomRange, panRange, size, c, amount)), zoomRange, panRange)
  {
    var fixed := Under(v, size, c);
    UnderInside(v, size, c);
    TowardsInside(fixed, v.min, amount);
    TowardsInside(fixed, v.max, amount);
    TowardsKeepsOrder(fixed, v.min, v.max, amount);
    hide Under, Towards;
  }

  /** So does a pan. */
  lemma PanStaysAllowed(v: View, zoomRange: Limits, panRange: Limits, size: real, d: real)
    requires Allowed(v, zoomRange, panRange) && size > 0.0
    ensures Allowed(Outcome(v, Panned(v, panRange, size, d)), zoomRange, panRange)
  {
    hide Scale;
  }

  datatype Action = ZoomBy(center: real, amount: real) | PanBy(distance: real)

  ghost predicate OnPlot(a: Action, size: real) {
    a.ZoomBy? ==> 0.0 <= a.center <= size && 0.0 < a.amount
  }

  /** What an axis shows after a run of actions. */
  ghost function AfterActions(v: View, zoomRange: Limits, panRange: Limits, size: real, run: seq<Action>): (w: View)
    requires Allowed(v, zoomRange, panRange) && size > 0.0
    requires forall k :: 0 <= k < |run| ==> OnPlot(run[k], size)
    ensures Allowed(w, zoomRange, panRange)
    decreases |run|
  {
    if run == [] then v
    else
      var w := AfterActions(v, zoomRange, panRange, size, run[..|run| - 1]);
      match run[|run| - 1]
      case ZoomBy(c, amount) =>
        assert OnPlot(run[|run| - 1], size);
        ZoomStaysAllowed(w, zoomRange, panRange, size, c, amount);
        Outcome(w, Zoomed(w, zoomRange, panRange, size, c, amount))
      case PanBy(d) =>
        PanStaysAllowed(w, zoomRange, panRange, size, d);
        Outcome(w, Panned(w, panRange, size, d))
  }
}
