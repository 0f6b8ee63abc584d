/** Zooming and panning of a flot plot (jquery.flot.navigate.js:197-324). */
module Navigate {
  import opened AxisTransform
  import opened Options
  import opened Reals

  /** A zoomRange or panRange option: false, absent, or a pair of which either end may be null. */
  datatype Limits = Disabled | Unset | Range(low: Option<real>, high: Option<real>)

  // ---------------------------------------------------------------- zooming

  /** The data under canvas coordinate c. */
  function Under(v: View, size: real, c: real): real
    requires v.min != v.max && size != 0.0
  {
    ScaleTimesSpan(v, size);
    C2p(v, size, c)
  }

  /** A limit drawn towards the fixed datum by the factor 1/amount. */
  function Towards(fixed: real, limit: real, amount: real): real
    requires amount != 0.0
  {
    fixed + (limit - fixed) / amount
  }

  /** The view zoomed by amount around canvas coordinate c: both limits move towards the datum there. */
  function ZoomedView(v: View, size: real, c: real, amount: real): View
    requires v.min != v.max && size != 0.0 && amount != 0.0
  {
    var fixed := Under(v, size, c);
    var a, b := Towards(fixed, v.min, amount), Towards(fixed, v.max, amount);
    View(v.direction, Smaller(a, b), Larger(a, b))
  }

  lemma TowardsKeepsOrder(fixed: real, a: real, b: real, amount: real)
    requires 0.0 < amount
    ensures a < b <==> Towards(fixed, a, amount) < Towards(fixed, b, amount)
    ensures (Towards(fixed, b, amount) - Towards(fixed, a, amount)) * amount == b - a
  {
  }

  /** Zooming keeps the range proper, and moves the origin and span of the transform. */
  lemma ZoomedFrame(v: View, size: real, c: real, amount: real)
    requires v.min != v.max && size != 0.0 && 0.0 < amount
    ensures var w := ZoomedView(v, size, c, amount);
            && w.min < w.max
            && Origin(w) == Towards(Under(v, size, c), Origin(v), amount)
            && Span(w) * amount == Span(v)
  {
    var fixed := Under(v, size, c);
    hide Under;
    TowardsKeepsOrder(fixed, v.min, v.max, amount);
    TowardsKeepsOrder(fixed, v.max, v.min, amount);
    hide Towards;
  }

  lemma MagnifyFraction(m: real, k: real, m': real, k': real, t: real, u: real, amount: real)
    requires amount != 0.0
    requires m' == Towards(m + t * k, m, amount)
    requires k' * amount == k
    ensures m + u * k == m' + (t + (u - t) * amount) * k'
  {
  }

  lemma UnderFraction(v: View, size: real, c: real) returns (t: real)
    requires v.min != v.max && size != 0.0
    ensures c == t * size && Under(v, size, c) == Origin(v) + t * Span(v)
  {
    t := FractionOf(c, size);
    ScaleTimesSpan(v, size);
    AtFraction(v, size, t, Origin(v) + t * Span(v), c);
    hide C2p, Scale, Span, Origin;
  }

  lemma DatumFraction(v: View, size: real, p: real) returns (u: real)
    requires v.min != v.max && size != 0.0
    ensures p == Origin(v) + u * Span(v) && P2c(v, size, p) == u * size
  {
    hide P2c, C2p, Scale, Origin;
    SpanNonzero(v);
    u := FractionOf(p - Origin(v), Span(v));
    AtFraction(v, size, u, p, u * size);
  }

  /** The fraction of the zoomed axis at which a datum at fraction u of the axis lies. */
  lemma MagnifiedFraction(m: real, k: real, m': real, k': real, t: real, u: real, amount: real, fixed: real,
                          size: real, c: real, d: real, p: real) returns (u': real)
    requires amount != 0.0
    requires fixed == m + t * k && m' == Towards(fixed, m, amount)
    requires k' * amount == k
    requires p == m + u * k && c == t * size && d == u * size
    ensures p == m' + u' * k'
    ensures c + amount * (d - c) == u' * size
  {
    MagnifyFraction(m, k, m', k', t, u, amount);
    u' := t + (u - t) * amount;
  }

  /** Zooming magnifies the canvas: every datum's distance from the zoom center is multiplied by amount. */
  lemma ZoomMagnifies(v: View, size: real, c: real, amount: real, p: real)
    requires v.min != v.max && size != 0.0 && 0.0 < amount
    ensures ZoomedView(v, size, c, amount).min < ZoomedView(v, size, c, amount).max
    ensures P2c(ZoomedView(v, size, c, amount), size, p) == c + amount * (P2c(v, size, p) - c)
  {
    hide Scale, P2c, C2p, Origin, Span, ZoomedView, Towards, Under;
    var w := ZoomedView(v, size, c, amount);
    ZoomedFrame(v, size, c, amount);
    var t := UnderFraction(v, size, c);
    var u := DatumFraction(v, size, p);
    var d := P2c(v, size, p);
    var u' := MagnifiedFraction(Origin(v), Span(v), Origin(w), Span(w), t, u, amount, Under(v, size, c), size, c, d, p);
    AtFraction(w, size, u', p, c + amount * (d - c));
  }

  /** The datum under the center stays there. */
  lemma ZoomKeepsCenter(v: View, size: real, c: real, amount: real)
    requires v.min != v.max && size != 0.0 && 0.0 < amount
    ensures ZoomedView(v, size, c, amount).min < ZoomedView(v, size, c, amount).max
    ensures Under(ZoomedView(v, size, c, amount), size, c) == Under(v, size, c)
  {
    hide P2c, C2p, Scale, ZoomedView, Span, Origin;
    var w := ZoomedView(v, size, c, amount);
    var p := Under(v, size, c);
    ZoomMagnifies(v, size, c, amount, p);
    TransformsAreInverse(v, size, p, c);
    TransformsAreInverse(w, size, p, c);
  }

  lemma TowardsTwice(fixed: real, limit: real, amount: real, again: real)
    requires amount != 0.0 && again != 0.0
    ensures amount * again != 0.0
    ensures Towards(fixed, Towards(fixed, limit, amount), again) == Towards(fixed, limit, amount * again)
  {
  }

  /** Two zooms around the same center are one zoom by the product of the amounts. */
  lemma ZoomsCompose(v: View, size: real, c: real, amount: real, again: real)
    requires v.min != v.max && size != 0.0 && 0.0 < amount && 0.0 < again
    ensures amount * again != 0.0
    ensures ZoomedView(v, size, c, amount).min < ZoomedView(v, size, c, amount).max
    ensures ZoomedView(ZoomedView(v, size, c, amount), size, c, again) == ZoomedView(v, size, c, amount * again)
  {
    var fixed := Under(v, size, c);
    ZoomKeepsCenter(v, size, c, amount);
    TowardsTwice(fixed, v.min, amount, again);
    TowardsTwice(fixed, v.max, amount, again);
    PositiveProduct(amount, again);
    hide Under, Towards;
  }

  lemma ZoomByOne(v: View, size: real, c: real)
    requires v.min < v.max && size != 0.0
    ensures ZoomedView(v, size, c, 1.0) == v
  {
  }

  /** Zooming out (by the inverse amount, 197-206) at the center of a zoom restores the range. */
  lemma ZoomOutRestores(v: View, size: real, c: real, amount: real)
    requires v.min < v.max && size != 0.0 && 0.0 < amount
    ensures ZoomedView(v, size, c, amount).min < ZoomedView(v, size, c, amount).max
    ensures 1.0 / amount != 0.0
    ensures ZoomedView(ZoomedView(v, size, c, amount), size, c, 1.0 / amount) == v
  {
    hide ZoomedView;
    QuotientSign(1.0, amount);
    QuotientTimes(1.0, amount);
    ZoomByOne(v, size, c);
    var inverse := 1.0 / amount;
    ZoomsCompose(v, size, c, amount, inverse);
    assert amount * inverse == 1.0;
  }

  // ---------------------------------------------------------------- negative amounts

  lemma MirroredFraction(m: real, k: real, m': real, k': real, t: real, amount: real, fixed: real)
    requires amount != 0.0
    requires fixed == m + t * k && m' == Towards(fixed, m + k, amount)
    requires k' * amount == -k
    ensures fixed == m' + (1.0 - t) * k'
  {
  }

  lemma MirroredFrame(v: View, size: real, c: real, amount: real)
    requires v.min != v.max && size != 0.0 && amount < 0.0
    ensures var w := ZoomedView(v, size, c, amount);
            && w.min < w.max
            && Origin(w) == Towards(Under(v, size, c), Origin(v) + Span(v), amount)
            && Span(w) * amount == -Span(v)
  {
    var fixed := Under(v, size, c);
    hide Under;
    TowardsReversesOrder(fixed, v.min, v.max, amount);
    TowardsReversesOrder(fixed, v.max, v.min, amount);
    hide Towards;
  }

  lemma TowardsReversesOrder(fixed: real, a: real, b: real, amount: real)
    requires amount < 0.0
    ensures a < b ==> Towards(fixed, b, amount) < Towards(fixed, a, amount)
    ensures (Towards(fixed, b, amount) - Towards(fixed, a, amount)) * amount == b - a
  {
  }

  /** The datum under the center keeps its place on the canvas exactly when the amount is positive or the
      center is the middle: a negative amount mirrors it. */
  lemma CenterStaysExactlyWhen(v: View, size: real, c: real, amount: real)
    requires v.min != v.max && size != 0.0 && amount != 0.0
    ensures ZoomedView(v, size, c, amount).min < ZoomedView(v, size, c, amount).max
    ensures P2c(ZoomedView(v, size, c, amount), size, Under(v, size, c)) == c <==> 0.0 < amount || c == size / 2.0
  {
    hide Scale, P2c, C2p, Origin, Span, ZoomedView, Towards;
    var w := ZoomedView(v, size, c, amount);
    var fixed := Under(v, size, c);
    if 0.0 < amount {
      ZoomMagnifies(v, size, c, amount, fixed);
      TransformsAreInverse(v, size, fixed, c);
    } else {
      MirroredFrame(v, size, c, amount);
      var t := UnderFraction(v, size, c);
      MirroredFraction(Origin(v), Span(v), Origin(w), Span(w), t, amount, fixed);
      AtFraction(w, size, 1.0 - t, fixed, size - c);
    }
  }

  /** Zoomed by -1 around a quarter of the plot, the datum there moves to three quarters. */
  lemma NegativeAmountCanFail()
    ensures var w := ZoomedView(View(X, 0.0, 10.0), 100.0, 25.0, -1.0);
            w.min < w.max && P2c(w, 100.0, Under(View(X, 0.0, 10.0), 100.0, 25.0)) != 25.0
  {
    CenterStaysExactlyWhen(View(X, 0.0, 10.0), 100.0, 25.0, -1.0);
    hide ZoomedView, P2c, Under;
  }

  lemma MirroredTwice(m: real, k: real, t: real, a: real, fixed: real, m1: real, k1: real, fixed1: real, m2: real)
    requires k != 0.0 && a < 0.0
    requires fixed == m + t * k && m1 == Towards(fixed, m + k, a) && k1 * a == -k
    requires fixed1 == m1 + t * k1 && m2 == fixed1 + (m1 + k1 - fixed1) * a
    ensures m2 == m <==> t == 0.5
  {
    var d := 2.0 * t - 1.0;
    MirroredFraction(m, k, m1, k1, t, a, fixed);
    assert m1 == m + t * k - (1.0 - t) * k1;
    assert (m1 + k1 - fixed1) * a == (1.0 - t) * (k1 * a);
    assert m2 == m + d * k + d * k1;
    assert (d * k + d * k1) * a == d * (k * a + k1 * a) == d * k * (a - 1.0);
    ProductOfThree(d, k, a - 1.0, a, d * k + d * k1);
  }

  lemma ProductOfThree(d: real, k: real, e: real, a: real, sum: real)
    requires k != 0.0 && e != 0.0 && a != 0.0 && sum * a == d * k * e
    ensures sum == 0.0 <==> d == 0.0
  {
    if d != 0.0 {
      assert d * k != 0.0;
      assert d * k * e != 0.0;
    }
  }

  lemma SameFrame(v: View, w: View)
    requires v.direction == w.direction && v.min < v.max && w.min < w.max && Span(v) == Span(w)
    ensures v == w <==> Origin(v) == Origin(w)
  {
  }

  /** Zooming out at the center of a zoom restores the range exactly for a positive amount or in the middle
      of the plot; two negative zooms elsewhere shift it. */
  lemma ZoomOutRestoresExactlyWhen(v: View, size: real, c: real, amount: real)
    requires v.min < v.max && size != 0.0 && amount != 0.0
    ensures ZoomedView(v, size, c, amount).min < ZoomedView(v, size, c, amount).max
    ensures 1.0 / amount != 0.0
    ensures ZoomedView(ZoomedView(v, size, c, amount), size, c, 1.0 / amount) == v <==> 0.0 < amount || c == size / 2.0
  {
    QuotientTimes(1.0, amount);
    if 0.0 < amount {
      ZoomOutRestores(v, size, c, amount);
    } else {
      NegativeInverse(amount);
      MirroredFrame(v, size, c, amount);
      hide ZoomedView, Under, Origin, Span;
      MirroredBack(v, size, c, amount);
    }
  }

  lemma NegativeInverse(amount: real)
    requires amount < 0.0
    ensures 1.0 / amount < 0.0
  {
    QuotientTimes(1.0, amount);
  }

  lemma MirroredBack(v: View, size: real, c: real, amount: real)
    requires v.min < v.max && size != 0.0 && amount < 0.0 && 1.0 / amount != 0.0
    requires ZoomedView(v, size, c, amount).min < ZoomedView(v, size, c, amount).max
    ensures ZoomedView(ZoomedView(v, size, c, amount), size, c, 1.0 / amount) == v <==> c == size / 2.0
  {
    hide ZoomedView, Under, Origin, Span, Towards, Scale, C2p;
    var inverse := 1.0 / amount;
    NegativeInverse(amount);
    QuotientTimes(1.0, amount);
    var w := ZoomedView(v, size, c, amount);
    var x := ZoomedView(w, size, c, inverse);
    MirroredFrame(v, size, c, amount);
    MirroredFrame(w, size, c, inverse);
    var t := UnderFraction(v, size, c);
    var t' := UnderFraction(w, size, c);
    SameFraction(t, t', size, c);
    SpanNonzero(v);
    SpanBack(Span(v), Span(w), Span(x), amount, inverse);
    TowardsInverse(Under(w, size, c), Origin(w) + Span(w), amount, inverse);
    MirroredTwice(Origin(v), Span(v), t, amount, Under(v, size, c), Origin(w), Span(w), Under(w, size, c), Origin(x));
    ZoomedDirection(v, size, c, amount);
    ZoomedDirection(w, size, c, inverse);
    SameFrame(v, x);
  }

  lemma ZoomedDirection(v: View, size: real, c: real, amount: real)
    requires v.min != v.max && size != 0.0 && amount != 0.0
    ensures ZoomedView(v, size, c, amount).direction == v.direction
  {
  }

  lemma SameFraction(t: real, t': real, size: real, c: real)
    requires size != 0.0 && c == t * size && c == t' * size
    ensures t == t'
    ensures c == size / 2.0 <==> t == 0.5
  {
    NonzeroFactor(t - t', size);
    if c == size / 2.0 {
      NonzeroFactor(t - 0.5, size);
    }
  }

  lemma NonzeroFactor(u: real, d: real)
    requires d != 0.0 && u * d == 0.0
    ensures u == 0.0
  {
  }

  lemma SpanBack(k: real, k1: real, k2: real, a: real, inverse: real)
    requires inverse * a == 1.0 && k1 * a == -k && k2 * inverse == -k1
    ensures k2 == k
  {
    assert k2 == k2 * inverse * a;
  }

  lemma TowardsInverse(fixed: real, limit: real, a: real, inverse: real)
    requires a != 0.0 && inverse != 0.0 && inverse * a == 1.0
    ensures Towards(fixed, limit, inverse) == fixed + (limit - fixed) * a
  {
    assert (limit - fixed) * a * inverse == limit - fixed;
    QuotientIs((limit - fixed) * a, inverse, limit - fixed);
  }

  // ---------------------------------------------------------------- limits on zooming

  /** The part of a range that a panRange option lets a zoom show (251-259). */
  function Confined(v: View, panRange: Limits): View {
    if !panRange.Range? then v
    else
      var lo := if panRange.low.Some? && v.min < panRange.low.value then panRange.low.value else v.min;
      var hi := if panRange.high.Some? && panRange.high.value < v.max then panRange.high.value else v.max;
      View(v.direction, lo, hi)
  }

  predicate Within(p: real, limits: Limits) {
    limits.Range? ==>
      && (limits.low.Some? ==> limits.low.value <= p)
      && (limits.high.Some? ==> p <= limits.high.value)
  }

  /** A confined range shows exactly the data that the range showed and the panRange allows. */
  lemma ConfinedIsIntersection(v: View, panRange: Limits, p: real)
    ensures Confined(v, panRange).min <= p <= Confined(v, panRange).max <==> v.min <= p <= v.max && Within(p, panRange)
  {
  }

  /** The range and the panRange reach each other from both sides, and the panRange is the right way round. */
  predicate Meets(v: View, panRange: Limits) {
    panRange.Range? ==>
      && (panRange.low.Some? ==> panRange.low.value <= v.max)
      && (panRange.high.Some? ==> v.min <= panRange.high.value)
      && (panRange.low.Some? && panRange.high.Some? ==> panRange.low.value <= panRange.high.value)
  }

  /** Confining leaves a range the right way round exactly when it meets the panRange, that is, when they
      have a datum in common. */
  lemma ConfinedProperExactlyWhen(v: View, panRange: Limits)
    requires v.min <= v.max
    ensures Confined(v, panRange).min <= Confined(v, panRange).max <==> Meets(v, panRange)
    ensures Meets(v, panRange) <==> exists p :: v.min <= p <= v.max && Within(p, panRange)
  {
    var w := Confined(v, panRange);
    if w.min <= w.max {
      assert Within(w.min, panRange);
    }
  }

  /** A zoom that would leave the allowed widths in the direction it is going is refused (261-265). */
  predicate Refused(zoomRange: Limits, width: real, amount: real) {
    || zoomRange == Disabled
    || (zoomRange.Range? && (
          || (zoomRange.low.Some? && width < zoomRange.low.value && amount > 1.0)
          || (zoomRange.high.Some? && width > zoomRange.high.value && amount < 1.0)))
  }

  /** What a zoom makes of one axis; None when it leaves the axis alone. */
  function Zoomed(v: View, zoomRange: Limits, panRange: Limits, size: real, c: real, amount: real): Option<View>
    requires v.min != v.max && size != 0.0 && amount != 0.0
  {
    var w := Confined(ZoomedView(v, size, c, amount), panRange);
    if Refused(zoomRange, w.max - w.min, amount) then None else Some(w)
  }

  // ---------------------------------------------------------------- panning

  function Shifted(v: View, x: real): View {
    View(v.direction, v.min + x, v.max + x)
  }

  /** A range pushed back to the walls of a panRange option, the lower wall first (300-314). */
  function PushedBack(v: View, panRange: Limits): View {
    if !panRange.Range? then v
    else
      var u := if panRange.low.Some? && panRange.low.value > v.min then Shifted(v, panRange.low.value - v.min) else v;
      if panRange.high.Some? && panRange.high.value < u.max then Shifted(u, panRange.high.value - u.max) else u
  }

  function Panned(v: View, panRange: Limits, size: real, d: real): Option<View>
    requires v.min != v.max && size != 0.0
  {
    ScaleTimesSpan(v, size);
    if panRange == Disabled then None else Some(PushedBack(Shifted(v, d / Scale(v, size)), panRange))
  }

  /** Panning never changes the width of the range. */
  lemma PanKeepsWidth(v: View, panRange: Limits, size: real, d: real)
    requires v.min != v.max && size != 0.0
    ensures Panned(v, panRange, size, d).Some? ==>
              var w := Panned(v, panRange, size, d).value; w.max - w.min == v.max - v.min && w.direction == v.direction
  {
  }

  /** It ends inside the panRange exactly when the range fits there. */
  lemma PanStaysInsideExactlyWhen(v: View, panRange: Limits, size: real, d: real)
    requires v.min != v.max && size != 0.0 && panRange.Range?
    ensures var w := Panned(v, panRange, size, d).value;
            Within(w.min, Range(panRange.low, None)) && Within(w.max, Range(None, panRange.high))
            <==> (panRange.low.Some? && panRange.high.Some? ==>
                  v.max - v.min <= panRange.high.value - panRange.low.value)
  {
  }

  /** Where it ends: at the upper wall when it would go beyond or the range does not fit, else at the lower
      wall when it would go beyond, and else where it was asked to. */
  lemma PanEndsAt(v: View, panRange: Limits, size: real, d: real)
    requires v.min != v.max && size != 0.0 && panRange != Disabled && Scale(v, size) != 0.0
    ensures var s, w := Shifted(v, d / Scale(v, size)), Panned(v, panRange, size, d).value;
            && s == View(v.direction, v.min + d / Scale(v, size), v.max + d / Scale(v, size))
            && var low := if panRange.Range? then panRange.low else None;
               var high := if panRange.Range? then panRange.high else None;
               if high.Some? && (high.value < s.max || (low.Some? && s.min < low.value
                                                        && high.value - low.value < v.max - v.min)) then
                 w.max == high.value
               else if low.Some? && s.min < low.value then w.min == low.value
               else w == s
  {
    hide Scale;
  }

  /** A pan that hits no wall moves every datum by the requested distance on the canvas; one that stays
      inside the walls hits none. */
  lemma PanTranslates(v: View, panRange: Limits, size: real, d: real, p: real)
    requires v.min != v.max && size != 0.0 && panRange != Disabled
    requires Scale(v, size) != 0.0
    requires var w := Shifted(v, d / Scale(v, size));
             panRange.Range? ==> Within(w.min, Range(panRange.low, None)) && Within(w.max, Range(None, panRange.high))
    ensures Panned(v, panRange, size, d).Some?
    ensures var w := Panned(v, panRange, size, d).value;
            w.min != w.max && P2c(w, size, p) == P2c(v, size, p) - d
  {
    var s := Scale(v, size);
    var w := Shifted(v, d / s);
    QuotientTimes(d, s);
    assert Scale(w, size) == s;
    hide Scale;
    assert (p - (Origin(v) + d / s)) * s == (p - Origin(v)) * s - (d / s) * s;
  }
}
