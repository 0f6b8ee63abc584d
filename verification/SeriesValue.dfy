/** What a plotted line series with gaps means: at each abscissa a value or nothing. */
module SeriesValue {
  import opened Options
  import opened PiecewiseLinear
  import opened SeriesPoints

  /** Sorted on the key, across gaps. */
  ghost predicate KeysIncrease(points: Points) {
    forall a, b :: 0 <= a < b < |points| && points[a].Some? && points[b].Some? ==>
        points[a].value.key < points[b].value.key
  }

  ghost predicate KeysBelow(points: Points, x: real) {
    forall a :: 0 <= a < |points| && points[a].Some? ==> points[a].value.key < x
  }

  ghost predicate HasKnot(points: Points, x: real) {
    exists a :: 0 <= a < |points| && points[a].Some? && points[a].value.key == x
  }

  /** The last two points are joined by a line that passes over x. */
  ghost predicate LastLegOver(points: Points, x: real) {
    && 2 <= |points| && points[|points| - 2].Some? && points[|points| - 1].Some?
    && points[|points| - 2].value.key < x < points[|points| - 1].value.key
  }

  /** The value drawn at x: that of the point there, or of the line between two neighbouring points. */
  ghost function At(points: Points, x: real): Option<real> {
    if points == [] then None
    else
      var last := points[|points| - 1];
      if last.Some? && last.value.key == x then Some(last.value.acc)
      else if LastLegOver(points, x) then Some(Lerp(KnotOf(points[|points| - 2].value), KnotOf(last.value), x))
      else At(points[..|points| - 1], x)
  }

  lemma AtAppend(points: Points, p: Option<Point>, x: real)
    ensures At(points + [p], x)
         == if p.Some? && p.value.key == x then Some(p.value.acc)
            else if LastLegOver(points + [p], x) then
              Some(Lerp(KnotOf(points[|points| - 1].value), KnotOf(p.value), x))
            else At(points, x)
  {
    assert (points + [p])[..|points|] == points;
  }

  lemma {:induction false} AtBeyond(points: Points, x: real)
    requires KeysBelow(points, x)
    ensures At(points, x) == None
  {
    if points != [] {
      AtBeyond(points[..|points| - 1], x);
    }
  }

  lemma {:induction false} AtBefore(points: Points, x: real)
    requires forall a :: 0 <= a < |points| && points[a].Some? ==> x < points[a].value.key
    ensures At(points, x) == None
  {
    if points != [] {
      AtBefore(points[..|points| - 1], x);
    }
  }

  lemma {:induction false} AtKnot(points: Points, i: nat)
    requires KeysIncrease(points) && i < |points| && points[i].Some?
    ensures At(points, points[i].value.key) == Some(points[i].value.acc)
  {
    if i < |points| - 1 {
      AtKnot(points[..|points| - 1], i);
    }
  }

  /** Between the points before i and point i. */
  lemma {:induction false} AtOpen(points: Points, i: nat, x: real)
    requires KeysIncrease(points) && i < |points| && points[i].Some? && x < points[i].value.key
    requires KeysBelow(points[..i], x)
    ensures At(points, x)
         == if i > 0 && points[i - 1].Some? then Some(Lerp(KnotOf(points[i - 1].value), KnotOf(points[i].value), x))
             else None
  {
    var init := points[..|points| - 1];
    if i < |points| - 1 {
      assert init[..i] == points[..i];
      AtOpen(init, i, x);
    } else {
      assert init == points[..i];
      if !(i > 0 && points[i - 1].Some?) {
        AtBeyond(init, x);
      } else {
        assert points[i - 1] == points[..i][i - 1];
      }
    }
  }

  /** On the line between two neighbouring points, ends included. */
  lemma AtOnLeg(points: Points, i: nat, x: real)
    requires KeysIncrease(points) && 0 < i < |points| && points[i - 1].Some? && points[i].Some?
    requires points[i - 1].value.key <= x <= points[i].value.key
    ensures At(points, x) == Some(Lerp(KnotOf(points[i - 1].value), KnotOf(points[i].value), x))
  {
    LerpAtEnds(KnotOf(points[i - 1].value), KnotOf(points[i].value));
    if x == points[i - 1].value.key {
      AtKnot(points, i - 1);
    } else if x == points[i].value.key {
      AtKnot(points, i);
    } else {
      AtOpen(points, i, x);
    }
  }

  /** Only keys and values matter. */
  lemma {:induction false} AtSame(points: Points, points': Points, x: real)
    requires |points| == |points'|
    requires forall a {:trigger points[a]} :: 0 <= a < |points| ==>
               && points[a].Some? == points'[a].Some?
               && (points[a].Some? ==> KnotOf(points[a].value) == KnotOf(points'[a].value))
    ensures At(points, x) == At(points', x)
  {
    if points != [] {
      AtSame(points[..|points| - 1], points'[..|points| - 1], x);
    }
  }

  /** On a gap-free series this is the piecewise-linear function of its knots. */
  lemma {:induction false} AtIsEval(points: Points, x: real)
    requires Clean(points)
    ensures KeysIncrease(points)
    ensures At(points, x) == if InDomain(Knots(points), x) then Some(Eval(Knots(points), x)) else None
  {
    var f := Knots(points);
    forall a, b | 0 <= a < b < |points|
      ensures points[a].value.key < points[b].value.key
    {
      assert f[a].x < f[b].x;
    }
    if points == [] {
    } else if x < points[0].value.key {
      AtBefore(points, x);
    } else if points[|points| - 1].value.key < x {
      AtBeyond(points, x);
    } else {
      var i := Locate(f, x);
      if i + 1 < |f| {
        AtOnLeg(points, i + 1, x);
        EvalOnSegment(f, i, x);
      } else {
        AtKnot(points, i);
        EvalAtKnot(f, i);
      }
    }
  }

  lemma SameKnots(a: Points, b: Points, x: real)
    requires |a| == |b|
    requires forall k {:trigger a[k]} :: 0 <= k < |a| ==>
               && a[k].Some? == b[k].Some?
               && (a[k].Some? ==> a[k].value.key == b[k].value.key)
    ensures HasKnot(a, x) <==> HasKnot(b, x)
  {
    if HasKnot(a, x) {
      var k :| 0 <= k < |a| && a[k].Some? && a[k].value.key == x;
      assert b[k].Some? && b[k].value.key == x;
    }
    if HasKnot(b, x) {
      var k :| 0 <= k < |b| && b[k].Some? && b[k].value.key == x;
      assert a[k].Some? && a[k].value.key == x;
    }
  }
}
