/** Points of a plotted series. A data point of flot occupies `pointsize` slots of a flat array; here it is
    one value, and a gap (a point whose slots are null) is None. */
module SeriesPoints {
  import opened Options
  import opened PiecewiseLinear

  /** `key` is the sorted coordinate and `acc` the accumulated one: x and y, or y and x for a plugin that
      works horizontally. `base` is the optional third slot, the bottom of a fill or of a bar. */
  datatype Point = Point(key: real, acc: real, base: real)

  type Points = seq<Option<Point>>

  function KnotOf(p: Point): Knot {
    Knot(p.key, p.acc)
  }

  ghost predicate GapFree(points: Points) {
    forall i :: 0 <= i < |points| ==> points[i].Some?
  }

  ghost function Knots(points: Points): (f: seq<Knot>)
    requires GapFree(points)
    ensures |f| == |points|
  {
    seq(|points|, k requires 0 <= k < |points| => KnotOf(points[k].value))
  }

  /** No gaps, and strictly sorted on the key. */
  ghost predicate Clean(points: Points) {
    GapFree(points) && Increasing(Knots(points))
  }

  /** Neighbouring points differ in their keys, so that interpolation between them is defined. */
  ghost predicate Separated(points: Points) {
    forall i {:trigger points[i]} :: 0 < i < |points| && points[i - 1].Some? && points[i].Some? ==>
      points[i - 1].value.key != points[i].value.key
  }

  /** The bottoms of a filled series as a series. */
  function BottomsOf(points: Points): Points {
    seq(|points|, k requires 0 <= k < |points| =>
      if points[k].None? then None else Some(Point(points[k].value.key, points[k].value.base, 0.0)))
  }

  ghost predicate BasesAreZero(points: Points) {
    forall i :: 0 <= i < |points| && points[i].Some? ==> points[i].value.base == 0.0
  }

  lemma CleanIsSeparated(points: Points)
    requires Clean(points)
    ensures Separated(points)
  {
    forall i | 0 < i < |points|
      ensures points[i - 1].value.key != points[i].value.key
    {
      assert Knots(points)[i - 1].x < Knots(points)[i].x;
    }
  }

  lemma NoHead<T>(rest: seq<T>)
    ensures [] + rest == rest && rest + [] == rest
  {
  }

  lemma Continue(points: Points, before: Points, now: Points, rest: Points)
    requires points == before + now
    ensures points + rest == before + (now + rest)
  {
  }
}
