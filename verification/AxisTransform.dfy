/** The data-to-canvas transforms of a flot axis without transform options (jquery.flot.js:1366-1397). */
module AxisTransform {
  import opened Reals

  datatype Direction = X | Y

  /** What the transforms depend on: the direction of the axis and the range it shows. */
  datatype View = View(direction: Direction, min: real, max: real)

  function Scale(v: View, size: real): (s: real)
    requires v.min != v.max
  {
    var s := size / Abs(v.max - v.min);
    if v.direction == X then s else -s
  }

  function Origin(v: View): real {
    if v.direction == X then Smaller(v.max, v.min) else Larger(v.max, v.min)
  }

  function P2c(v: View, size: real, p: real): real
    requires v.min != v.max
  {
    (p - Origin(v)) * Scale(v, size)
  }

  function C2p(v: View, size: real, c: real): real
    requires v.min != v.max && Scale(v, size) != 0.0
  {
    Origin(v) + c / Scale(v, size)
  }

  /** The data distance from canvas coordinate 0 to the far end, signed by direction. */
  function Span(v: View): real {
    if v.direction == X then Abs(v.max - v.min) else -Abs(v.max - v.min)
  }

  lemma ScaleTimesSpan(v: View, size: real)
    requires v.min != v.max
    ensures Scale(v, size) * Span(v) == size
    ensures Scale(v, size) == 0.0 <==> size == 0.0
  {
  }

  /** The datum and the canvas coordinate that lie a fraction t along the axis correspond. */
  lemma AtFraction(v: View, size: real, t: real, p: real, c: real)
    requires v.min != v.max && size != 0.0
    requires p == Origin(v) + t * Span(v)
    requires c == t * size
    ensures Scale(v, size) != 0.0
    ensures P2c(v, size, p) == c
    ensures C2p(v, size, c) == p
  {
    ScaleTimesSpan(v, size);
    hide Scale, Span, Origin;
    FractionTimes(t, Span(v), Scale(v, size), size);
    QuotientIs(t * Span(v), Scale(v, size), c);
  }

  lemma FractionTimes(t: real, k: real, s: real, size: real)
    requires s * k == size
    ensures (t * k) * s == t * size
  {
  }

  /** Every canvas coordinate and every datum is at some fraction. */
  lemma FractionOf(u: real, size: real) returns (t: real)
    requires size != 0.0
    ensures t * size == u
  {
    t := u / size;
    QuotientTimes(u, size);
  }

  lemma SpanNonzero(v: View)
    requires v.min != v.max
    ensures Span(v) != 0.0
  {
  }

  /** c2p undoes p2c and p2c undoes c2p, also for an axis given with its limits the wrong way round. */
  lemma TransformsAreInverse(v: View, size: real, p: real, c: real)
    requires v.min != v.max && size != 0.0
    ensures Scale(v, size) != 0.0
    ensures C2p(v, size, P2c(v, size, p)) == p
    ensures P2c(v, size, C2p(v, size, c)) == c
  {
    SpanNonzero(v);
    hide Span, Scale, Origin, P2c, C2p;
    var t := FractionOf(p - Origin(v), Span(v));
    AtFraction(v, size, t, p, t * size);
    var u := FractionOf(c, size);
    AtFraction(v, size, u, Origin(v) + u * Span(v), c);
  }

  /** The range fills the canvas: x grows from the lower limit at 0, y falls from the upper limit at 0. */
  lemma EndsOfCanvas(v: View, size: real)
    requires v.min != v.max && size != 0.0
    ensures P2c(v, size, Smaller(v.min, v.max)) == if v.direction == X then 0.0 else size
    ensures P2c(v, size, Larger(v.min, v.max)) == if v.direction == X then size else 0.0
  {
    AtFraction(v, size, 0.0, Origin(v), 0.0);
    AtFraction(v, size, 1.0, Origin(v) + Span(v), size);
    hide Scale, P2c;
  }
}
