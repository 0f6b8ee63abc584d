/** Line clipping in drawSeriesLines/plotLine of flot (jquery.flot.js). Commands and segments are in data
    coordinates: the final scaling to canvas coordinates is applied point by point. */
module Clip {
  import opened Options
  import opened Reals

  datatype Segment = Segment(x1: real, y1: real, x2: real, y2: real)

  /** The four sides of the axis box, in data coordinates. */
  datatype Half = YMin(c: real) | YMax(c: real) | XMin(c: real) | XMax(c: real)

  datatype Box = Box(xmin: real, xmax: real, ymin: real, ymax: real)

  // ---------------------------------------------------------------- one side

  /** The coordinate b at which the line from (a1, b1) to (a2, b2) reaches a = c. */
  function Intercept(c: real, a1: real, a2: real, b1: real, b2: real): real
    requires a1 != a2
  {
    (c - a1) / (a2 - a1) * (b2 - b1) + b1
  }

  /** One of the four clipping blocks; None is the `continue` that drops the segment. */
  function ClipSide(h: Half, s: Segment): (r: Option<Segment>) {
    match h
    case YMin(c) =>
      if s.y1 <= s.y2 && s.y1 < c then
        if s.y2 < c then None
        else Some(s.(x1 := Intercept(c, s.y1, s.y2, s.x1, s.x2), y1 := c))
      else if s.y2 <= s.y1 && s.y2 < c then
        if s.y1 < c then None
        else Some(s.(x2 := Intercept(c, s.y1, s.y2, s.x1, s.x2), y2 := c))
      else Some(s)
    case YMax(c) =>
      if s.y1 >= s.y2 && s.y1 > c then
        if s.y2 > c then None
        else Some(s.(x1 := Intercept(c, s.y1, s.y2, s.x1, s.x2), y1 := c))
      else if s.y2 >= s.y1 && s.y2 > c then
        if s.y1 > c then None
        else Some(s.(x2 := Intercept(c, s.y1, s.y2, s.x1, s.x2), y2 := c))
      else Some(s)
    case XMin(c) =>
      if s.x1 <= s.x2 && s.x1 < c then
        if s.x2 < c then None
        else Some(s.(y1 := Intercept(c, s.x1, s.x2, s.y1, s.y2), x1 := c))
      else if s.x2 <= s.x1 && s.x2 < c then
        if s.x1 < c then None
        else Some(s.(y2 := Intercept(c, s.x1, s.x2, s.y1, s.y2), x2 := c))
      else Some(s)
    case XMax(c) =>
      if s.x1 >= s.x2 && s.x1 > c then
        if s.x2 > c then None
        else Some(s.(y1 := Intercept(c, s.x1, s.x2, s.y1, s.y2), x1 := c))
      else if s.x2 >= s.x1 && s.x2 > c then
        if s.x1 > c then None
        else Some(s.(y2 := Intercept(c, s.x1, s.x2, s.y1, s.y2), x2 := c))
      else Some(s)
  }

  // ---------------------------------------------------------------- what clipping means

  /** The point of s at parameter t, from its start at 0 to its end at 1. */
  ghost function At(s: Segment, t: real): (real, real) {
    (Between(s.x1, s.x2, t), Between(s.y1, s.y2, t))
  }

  ghost function Between(a: real, b: real, t: real): real {
    a + t * (b - a)
  }

  /** How far inside the side a point lies; negative outside. */
  ghost function Depth(h: Half, p: (real, real)): real {
    match h
    case YMin(c) => p.1 - c
    case YMax(c) => c - p.1
    case XMin(c) => p.0 - c
    case XMax(c) => c - p.0
  }

  ghost predicate Inside(hs: seq<Half>, p: (real, real)) {
    forall k {:trigger hs[k]} :: 0 <= k < |hs| ==> 0.0 <= Depth(hs[k], p)
  }

  /** r is the part of s from parameter t0 to t1, in the direction of s, and those are exactly the
      parameters of the points of s inside all the sides. */
  ghost predicate IsPart(s: Segment, hs: seq<Half>, r: Segment, t0: real, t1: real) {
    && 0.0 <= t0 <= t1 <= 1.0
    && (r.x1, r.y1) == At(s, t0) && (r.x2, r.y2) == At(s, t1)
    && forall t {:trigger At(s, t)} :: 0.0 <= t <= 1.0 ==> (Inside(hs, At(s, t)) <==> t0 <= t <= t1)
  }

  ghost predicate IsOutside(s: Segment, hs: seq<Half>) {
    forall t {:trigger At(s, t)} :: 0.0 <= t <= 1.0 ==> !Inside(hs, At(s, t))
  }

  // ---------------------------------------------------------------- one side, proved

  lemma DepthIsAffine(h: Half, s: Segment, t: real)
    ensures Depth(h, At(s, t)) == Between(Depth(h, At(s, 0.0)), Depth(h, At(s, 1.0)), t)
  {
  }

  /** Sign of an affine function on the unit interval, when it starts below zero and ends at or above it. */
  lemma RisingSign(d0: real, d1: real, u: real, t: real)
    requires d0 < 0.0 <= d1 && u * (d1 - d0) == -d0
    ensures 0.0 < u <= 1.0
    ensures 0.0 <= Between(d0, d1, t) <==> u <= t
  {
    var e := d1 - d0;
    ProductDifference(t, u, e);
    ProductDifference(1.0, u, e);
    ProductSign(t - u, e);
    ProductSign(u, e);
    ProductSign(1.0 - u, e);
  }

  lemma ProductDifference(a: real, b: real, e: real)
    ensures (a - b) * e == a * e - b * e
  {
  }

  lemma ProductSign(a: real, b: real)
    requires 0.0 < b
    ensures 0.0 <= a * b <==> 0.0 <= a
    ensures 0.0 < a * b <==> 0.0 < a
  {
  }

  /** An affine function on the unit interval stays between its end values. */
  lemma BetweenBounds(a: real, b: real, t: real)
    requires 0.0 <= t <= 1.0
    ensures (if a <= b then a else b) <= Between(a, b, t) <= (if a <= b then b else a)
  {
    ProductDifference(1.0, t, b - a);
    if a <= b {
      NonnegativeProduct(t, b - a);
      NonnegativeProduct(1.0 - t, b - a);
    } else {
      NonnegativeProduct(t, a - b);
      NonnegativeProduct(1.0 - t, a - b);
      assert t * (a - b) == -(t * (b - a));
      assert (1.0 - t) * (a - b) == -((1.0 - t) * (b - a));
    }
  }

  /** The parameter at which s crosses the side. */
  ghost function Crossing(h: Half, s: Segment): real
    requires Depth(h, At(s, 0.0)) != Depth(h, At(s, 1.0))
  {
    -Depth(h, At(s, 0.0)) / (Depth(h, At(s, 1.0)) - Depth(h, At(s, 0.0)))
  }

  /** The four blocks in one form: which end moves, and that it moves to the crossing. */
  lemma SideCases(h: Half, s: Segment)
    ensures var d0, d1 := Depth(h, At(s, 0.0)), Depth(h, At(s, 1.0));
            && (0.0 <= d0 && 0.0 <= d1 ==> ClipSide(h, s) == Some(s))
            && (d0 < 0.0 && d1 < 0.0 ==> ClipSide(h, s) == None)
            && (d0 < 0.0 <= d1 ==>
                  var p := At(s, Crossing(h, s)); ClipSide(h, s) == Some(Segment(p.0, p.1, s.x2, s.y2)))
            && (d1 < 0.0 <= d0 ==>
                  var p := At(s, Crossing(h, s)); ClipSide(h, s) == Some(Segment(s.x1, s.y1, p.0, p.1)))
  {
    var d0, d1 := Depth(h, At(s, 0.0)), Depth(h, At(s, 1.0));
    if d0 != d1 {
      CrossingIsOnSide(h, s);
      SideAt(h, s, Crossing(h, s));
    }
  }

  lemma CrossingIsOnSide(h: Half, s: Segment)
    requires Depth(h, At(s, 0.0)) != Depth(h, At(s, 1.0))
    ensures Depth(h, At(s, Crossing(h, s))) == 0.0
  {
    hide Depth, At;
    QuotientTimes(-Depth(h, At(s, 0.0)), Depth(h, At(s, 1.0)) - Depth(h, At(s, 0.0)));
    DepthIsAffine(h, s, Crossing(h, s));
  }

  lemma SideAt(h: Half, s: Segment, u: real)
    requires Depth(h, At(s, 0.0)) != Depth(h, At(s, 1.0)) && Depth(h, At(s, u)) == 0.0
    ensures var d0, d1, p := Depth(h, At(s, 0.0)), Depth(h, At(s, 1.0)), At(s, u);
            && (0.0 <= d0 && 0.0 <= d1 ==> ClipSide(h, s) == Some(s))
            && (d0 < 0.0 && d1 < 0.0 ==> ClipSide(h, s) == None)
            && (d0 < 0.0 <= d1 ==> ClipSide(h, s) == Some(Segment(p.0, p.1, s.x2, s.y2)))
            && (d1 < 0.0 <= d0 ==> ClipSide(h, s) == Some(Segment(s.x1, s.y1, p.0, p.1)))
  {
    hide Intercept, At;
    var p := At(s, u);
    AtEnds(s);
    var c := h.c;
    if h.YMin? || h.YMax? {
      InterceptIsPoint(s, u, c, true);
    } else {
      InterceptIsPoint(s, u, c, false);
    }
  }

  lemma InterceptIsPoint(s: Segment, u: real, c: real, vertical: bool)
    requires if vertical then s.y1 != s.y2 && At(s, u).1 == c else s.x1 != s.x2 && At(s, u).0 == c
    ensures vertical ==> At(s, u).0 == Intercept(c, s.y1, s.y2, s.x1, s.x2)
    ensures !vertical ==> At(s, u).1 == Intercept(c, s.x1, s.x2, s.y1, s.y2)
  {
  }

  lemma AtEnds(s: Segment)
    ensures At(s, 0.0) == (s.x1, s.y1) && At(s, 1.0) == (s.x2, s.y2)
  {
  }

  /** Clipping against one side keeps exactly the part of the segment inside it. */
  lemma ClipSideKeepsPart(h: Half, s: Segment) returns (t0: real, t1: real)
    ensures ClipSide(h, s).None? <==> IsOutside(s, [h])
    ensures ClipSide(h, s).Some? ==> IsPart(s, [h], ClipSide(h, s).value, t0, t1)
  {
    hide At, Depth, Crossing, ClipSide, Between;
    SideCases(h, s);
    AtEnds(s);
    var d0, d1 := Depth(h, At(s, 0.0)), Depth(h, At(s, 1.0));
    t0, t1 := 0.0, 1.0;
    if d0 < 0.0 <= d1 {
      t0 := Crossing(h, s);
    } else if d1 < 0.0 <= d0 {
      t1 := Crossing(h, s);
    }
    forall t | 0.0 <= t <= 1.0
      ensures Inside([h], At(s, t)) <==> 0.0 <= Depth(h, At(s, t))
      ensures d0 < 0.0 && d1 < 0.0 ==> Depth(h, At(s, t)) < 0.0
      ensures !(d0 < 0.0 && d1 < 0.0) ==> (0.0 <= Depth(h, At(s, t)) <==> t0 <= t <= t1)
    {
      InsideOne(h, At(s, t));
      DepthIsAffine(h, s, t);
      if d0 < 0.0 <= d1 {
        CrossingQuotient(h, s);
        RisingSign(d0, d1, t0, t);
      } else if d1 < 0.0 <= d0 {
        CrossingQuotient(h, s);
        FallingSign(d0, d1, t1, t);
      } else {
        BetweenBounds(d0, d1, t);
      }
    }
    if d0 < 0.0 <= d1 {
      CrossingQuotient(h, s);
      RisingSign(d0, d1, t0, 0.0);
    } else if d1 < 0.0 <= d0 {
      CrossingQuotient(h, s);
      FallingSign(d0, d1, t1, 1.0);
    }
    assert !(d0 < 0.0 && d1 < 0.0) ==> Inside([h], At(s, t0));
  }

  lemma InsideOne(h: Half, p: (real, real))
    ensures Inside([h], p) <==> 0.0 <= Depth(h, p)
  {
    hide Depth;
    assert [h][0] == h;
  }

  lemma CrossingQuotient(h: Half, s: Segment)
    requires Depth(h, At(s, 0.0)) != Depth(h, At(s, 1.0))
    ensures Crossing(h, s) * (Depth(h, At(s, 1.0)) - Depth(h, At(s, 0.0))) == -Depth(h, At(s, 0.0))
  {
  }

  /** Sign of an affine function that starts at or above zero and ends below it. */
  lemma FallingSign(d0: real, d1: real, u: real, t: real)
    requires d1 < 0.0 <= d0 && u * (d1 - d0) == -d0
    ensures 0.0 <= u < 1.0
    ensures 0.0 <= Between(d0, d1, t) <==> t <= u
  {
  }

  // ---------------------------------------------------------------- all sides

  /** A part of a part is a part, and the sides add up. */
  lemma PartOfPart(s: Segment, hs: seq<Half>, r: Segment, t0: real, t1: real, h: Half, r': Segment, u0: real, u1: real)
    requires IsPart(s, hs, r, t0, t1) && IsPart(r, [h], r', u0, u1)
    ensures IsPart(s, hs + [h], r', Between(t0, t1, u0), Between(t0, t1, u1))
  {
    hide At, Depth, Inside, Between;
    var v0, v1 := Between(t0, t1, u0), Between(t0, t1, u1);
    PartParameter(s, r, t0, t1, u0);
    PartParameter(s, r, t0, t1, u1);
    BetweenRange(t0, t1, u0, u1);
    forall t | 0.0 <= t <= 1.0
      ensures Inside(hs + [h], At(s, t)) <==> v0 <= t <= v1
    {
      InsideAppend(hs, h, At(s, t));
      if t0 <= t <= t1 {
        InnerPart(s, r, t0, t1, h, r', u0, u1, t);
      }
    }
  }

  lemma InnerPart(s: Segment, r: Segment, t0: real, t1: real, h: Half, r': Segment, u0: real, u1: real, t: real)
    requires (r.x1, r.y1) == At(s, t0) && (r.x2, r.y2) == At(s, t1)
    requires IsPart(r, [h], r', u0, u1) && t0 <= t <= t1
    ensures Inside([h], At(s, t)) <==> Between(t0, t1, u0) <= t <= Between(t0, t1, u1)
  {
    hide At, Depth, Inside, Between;
    if t0 < t1 {
      var u := InnerParameter(t0, t1, t);
      PartParameter(s, r, t0, t1, u);
      assert Inside([h], At(r, u)) <==> u0 <= u <= u1;
      BetweenOrder(t0, t1, u0, u);
      BetweenOrder(t0, t1, u, u1);
    } else {
      PartParameter(s, r, t0, t1, u0);
      BetweenSame(t0, u0);
      BetweenSame(t0, u1);
      assert Inside([h], At(r, u0));
    }
  }

  lemma NothingOfPart(s: Segment, hs: seq<Half>, r: Segment, t0: real, t1: real, h: Half)
    requires IsPart(s, hs, r, t0, t1) && IsOutside(r, [h])
    ensures IsOutside(s, hs + [h])
  {
    hide At, Depth, Inside, Between;
    forall t | 0.0 <= t <= 1.0
      ensures !Inside(hs + [h], At(s, t))
    {
      InsideAppend(hs, h, At(s, t));
      if t0 <= t <= t1 {
        var u := InnerParameter(t0, t1, t);
        PartParameter(s, r, t0, t1, u);
        assert !Inside([h], At(r, u));
      }
    }
  }

  lemma InsideAppend(hs: seq<Half>, h: Half, p: (real, real))
    ensures Inside(hs + [h], p) <==> Inside(hs, p) && Inside([h], p)
  {
    hide Depth;
    InsideOne(h, p);
    var all := hs + [h];
    assert all[|hs|] == h;
    assert forall k :: 0 <= k < |hs| ==> all[k] == hs[k];
  }

  lemma PartParameter(s: Segment, r: Segment, t0: real, t1: real, u: real)
    requires (r.x1, r.y1) == At(s, t0) && (r.x2, r.y2) == At(s, t1)
    ensures At(r, u) == At(s, Between(t0, t1, u))
  {
    hide Between;
    BetweenCompose(s.x1, s.x2, t0, t1, u);
    BetweenCompose(s.y1, s.y2, t0, t1, u);
  }

  lemma BetweenCompose(a: real, b: real, t0: real, t1: real, u: real)
    ensures Between(Between(a, b, t0), Between(a, b, t1), u) == Between(a, b, Between(t0, t1, u))
  {
  }

  lemma BetweenSame(t: real, u: real)
    ensures Between(t, t, u) == t
  {
  }

  lemma BetweenRange(t0: real, t1: real, u0: real, u1: real)
    requires t0 <= t1 && 0.0 <= u0 <= u1 <= 1.0
    ensures t0 <= Between(t0, t1, u0) <= Between(t0, t1, u1) <= t1
  {
    NonnegativeProduct(u0, t1 - t0);
    NonnegativeProduct(u1 - u0, t1 - t0);
    NonnegativeProduct(1.0 - u1, t1 - t0);
  }

  lemma BetweenOrder(t0: real, t1: real, u: real, v: real)
    requires t0 < t1
    ensures Between(t0, t1, u) <= Between(t0, t1, v) <==> u <= v
  {
    ProductSign(v - u, t1 - t0);
    assert (v - u) * (t1 - t0) == v * (t1 - t0) - u * (t1 - t0);
  }

  lemma InnerParameter(t0: real, t1: real, t: real) returns (u: real)
    requires t0 <= t <= t1
    ensures 0.0 <= u <= 1.0 && t == Between(t0, t1, u)
  {
    if t0 == t1 {
      u := 0.0;
    } else {
      u := (t - t0) / (t1 - t0);
      QuotientTimes(t - t0, t1 - t0);
      BetweenOrder(t0, t1, 0.0, u);
      BetweenOrder(t0, t1, u, 1.0);
    }
  }

  // ---------------------------------------------------------------- the box

  function Sides(b: Box): seq<Half> {
    [YMin(b.ymin), YMax(b.ymax), XMin(b.xmin), XMax(b.xmax)]
  }

  /** The four blocks in the order of the source. */
  function ClipAll(hs: seq<Half>, s: Segment): Option<Segment> {
    if hs == [] then Some(s)
    else
      match ClipAll(hs[..|hs| - 1], s)
      case None => None
      case Some(r) => ClipSide(hs[|hs| - 1], r)
  }

  lemma {:induction false} ClipAllKeepsPart(hs: seq<Half>, s: Segment) returns (t0: real, t1: real)
    ensures ClipAll(hs, s).None? ==> IsOutside(s, hs)
    ensures ClipAll(hs, s).Some? ==> IsPart(s, hs, ClipAll(hs, s).value, t0, t1)
  {
    hide ClipSide, At, Depth, Between;
    if hs == [] {
      t0, t1 := 0.0, 1.0;
      AtEnds(s);
    } else {
      var init, h := hs[..|hs| - 1], hs[|hs| - 1];
      assert hs == init + [h];
      t0, t1 := ClipAllKeepsPart(init, s);
      match ClipAll(init, s)
      case None =>
        forall t | 0.0 <= t <= 1.0
          ensures !Inside(hs, At(s, t))
        {
          InsideAppend(init, h, At(s, t));
        }
      case Some(r) =>
        var u0, u1 := ClipSideKeepsPart(h, r);
        if ClipSide(h, r).None? {
          NothingOfPart(s, init, r, t0, t1, h);
        } else {
          PartOfPart(s, init, r, t0, t1, h, ClipSide(h, r).value, u0, u1);
          t0, t1 := Between(t0, t1, u0), Between(t0, t1, u1);
        }
    }
  }

  predicate InBox(b: Box, p: (real, real)) {
    b.xmin <= p.0 <= b.xmax && b.ymin <= p.1 <= b.ymax
  }

  ghost predicate OnSegment(s: Segment, p: (real, real)) {
    exists t {:trigger At(s, t)} :: 0.0 <= t <= 1.0 && p == At(s, t)
  }

  /** Clipping drops a segment exactly when it misses the box, and otherwise yields exactly the points of
      the segment in the box, in the direction of the segment. This holds for every segment and box. */
  lemma ClippedIsIntersection(b: Box, s: Segment)
    ensures ClipAll(Sides(b), s).None? <==> forall p :: OnSegment(s, p) ==> !InBox(b, p)
    ensures ClipAll(Sides(b), s).Some? ==>
              && (forall p :: OnSegment(ClipAll(Sides(b), s).value, p) <==> OnSegment(s, p) && InBox(b, p))
              && exists t0, t1 {:trigger At(s, t0), At(s, t1)} :: 0.0 <= t0 <= t1 <= 1.0
                   && At(ClipAll(Sides(b), s).value, 0.0) == At(s, t0)
                   && At(ClipAll(Sides(b), s).value, 1.0) == At(s, t1)
  {
    hide ClipAll, At, Between;
    var t0, t1 := ClipAllKeepsPart(Sides(b), s);
    forall p
      ensures Inside(Sides(b), p) <==> InBox(b, p)
    {
      InsideSides(b, p);
    }
    if ClipAll(Sides(b), s).Some? {
      var r := ClipAll(Sides(b), s).value;
      AtEnds(r);
      assert OnSegment(s, At(s, t0)) && InBox(b, At(s, t0));
      forall p
        ensures OnSegment(r, p) <==> OnSegment(s, p) && InBox(b, p)
      {
        PartIsIntersection(b, s, r, t0, t1, p);
      }
    }
  }

  lemma InsideSides(b: Box, p: (real, real))
    ensures Inside(Sides(b), p) <==> InBox(b, p)
  {
    var hs := Sides(b);
    assert hs[0] == YMin(b.ymin) && hs[1] == YMax(b.ymax) && hs[2] == XMin(b.xmin) && hs[3] == XMax(b.xmax);
  }

  lemma PartIsIntersection(b: Box, s: Segment, r: Segment, t0: real, t1: real, p: (real, real))
    requires IsPart(s, Sides(b), r, t0, t1)
    ensures OnSegment(r, p) <==> OnSegment(s, p) && InBox(b, p)
  {
    hide At, Between, Inside;
    InsideSides(b, p);
    if OnSegment(r, p) {
      var u :| 0.0 <= u <= 1.0 && p == At(r, u);
      PartParameter(s, r, t0, t1, u);
      BetweenRange(t0, t1, u, u);
      assert p == At(s, Between(t0, t1, u));
    }
    if OnSegment(s, p) && InBox(b, p) {
      var t :| 0.0 <= t <= 1.0 && p == At(s, t);
      var u := InnerParameter(t0, t1, t);
      PartParameter(s, r, t0, t1, u);
      assert p == At(r, u);
    }
  }
}
