/** What the line commands of plotLineArea draw for one edge (jquery.flot.js:2364-2460): the edge inside
    the horizontal range of the axis box, with its ordinates clamped to the vertical range. */
module AreaShape {
  import opened AreaSweep
  import opened Clip
  import opened Options

  function Clamp(b: Box, y: real): real {
    if y < b.ymin then b.ymin else if b.ymax < y then b.ymax else y
  }

  /** The point of an edge at parameter t, with its ordinate clamped. */
  ghost function Clamped(b: Box, s: Segment, t: real): (real, real) {
    (Between(s.x1, s.x2, t), Clamp(b, Between(s.y1, s.y2, t)))
  }

  ghost predicate OnClamped(b: Box, s: Segment, p: (real, real)) {
    exists t {:trigger Clamped(b, s, t)} :: 0.0 <= t <= 1.0 && p == Clamped(b, s, t)
  }

  ghost predicate AllLines(lines: seq<Command>) {
    forall k :: 0 <= k < |lines| ==> lines[k].LineTo?
  }

  /** Leg k of a path of lineTo commands. */
  ghost function Leg(lines: seq<Command>, k: nat): Segment
    requires AllLines(lines) && k + 1 < |lines|
  {
    Segment(lines[k].x, lines[k].y, lines[k + 1].x, lines[k + 1].y)
  }

  ghost predicate OnPath(lines: seq<Command>, p: (real, real))
    requires AllLines(lines)
  {
    exists k: nat {:trigger Leg(lines, k)} :: k + 1 < |lines| && OnSegment(Leg(lines, k), p)
  }

  // ---------------------------------------------------------------- an edge that crosses the vertical range

  predicate Above(b: Box, s: Segment) {
    s.y1 >= b.ymax && s.y2 >= b.ymax
  }

  predicate Below(b: Box, s: Segment) {
    s.y1 <= b.ymin && s.y2 <= b.ymin
  }

  function Strip(b: Box): seq<Half> {
    [YMin(b.ymin), YMax(b.ymax)]
  }

  /** The two vertical clips of the area are those of plotLine, which here never drop the edge. */
  lemma ClipsAgree(b: Box, s: Segment)
    requires b.ymin <= b.ymax && !Above(b, s) && !Below(b, s)
    ensures ClipAll(Strip(b), s) == Some(ClipYMax(b, ClipYMin(b, s)))
    ensures ClipYMax(b, ClipYMin(b, s)).y1 == Clamp(b, s.y1) && ClipYMax(b, ClipYMin(b, s)).y2 == Clamp(b, s.y2)
  {
    hide Intercept;
    var r := ClipYMin(b, s);
    assert ClipSide(YMin(b.ymin), s) == Some(r);
    assert ClipSide(YMax(b.ymax), r) == Some(ClipYMax(b, r));
    ClipTwo(YMin(b.ymin), YMax(b.ymax), s);
  }

  lemma ClipTwo(h: Half, h': Half, s: Segment)
    ensures ClipAll([h, h'], s) == match ClipSide(h, s) case None => None case Some(r) => ClipSide(h', r)
  {
    hide ClipSide;
    var hs := [h, h'];
    assert hs[..1] == [h] && [h][..0] == [];
    assert ClipAll([h], s) == ClipSide(h, s);
  }

  /** Between two parameters at which the edge has an ordinate and its clamped value, the clamped ordinate
      is constant. */
  lemma FlatPart(b: Box, s: Segment, t: real, from: real, to: real, y: real)
    requires b.ymin <= b.ymax && from <= t <= to
    requires var p, q := Between(s.y1, s.y2, from), Between(s.y1, s.y2, to);
             (p == y && q == Clamp(b, y)) || (q == y && p == Clamp(b, y))
    ensures Clamp(b, Between(s.y1, s.y2, t)) == Clamp(b, y)
  {
    hide Between;
    var u := InnerParameter(from, to, t);
    BetweenCompose(s.y1, s.y2, from, to, u);
    BetweenBounds(Between(s.y1, s.y2, from), Between(s.y1, s.y2, to), u);
  }

  function Lead(s: Segment, r: Segment): Segment {
    Segment(s.x1, r.y1, r.x1, r.y1)
  }

  function Trail(s: Segment, r: Segment): Segment {
    Segment(r.x2, r.y2, s.x2, r.y2)
  }

  /** p lies on the flat part before r, on r, or on the flat part after it. */
  ghost predicate OnTrace(s: Segment, r: Segment, p: (real, real)) {
    OnSegment(Lead(s, r), p) || OnSegment(r, p) || OnSegment(Trail(s, r), p)
  }

  lemma EndsOn(r: Segment)
    ensures OnSegment(r, (r.x1, r.y1)) && OnSegment(r, (r.x2, r.y2))
  {
    AtEnds(r);
  }

  lemma PointOn(r: Segment, p: (real, real))
    requires r.x1 == r.x2 && r.y1 == r.y2 && OnSegment(r, p)
    ensures p == (r.x1, r.y1)
  {
  }

  /** The commands draw the flat part before, the part in the range and the flat part after; the source
      leaves out a flat part without extent, and repeats a point before the second. */
  lemma PathIsTrace(b: Box, s: Segment, p: (real, real))
    requires !Above(b, s) && !Below(b, s)
    ensures AllLines(EdgeLines(b, s))
    ensures OnPath(EdgeLines(b, s), p) <==> OnTrace(s, ClipYMax(b, ClipYMin(b, s)), p)
  {
    var r := ClipYMax(b, ClipYMin(b, s));
    var lines := EdgeLines(b, s);
    hide ClipYMax, ClipYMin, OnSegment;
    EndsOn(r);
    EndsOn(Lead(s, r));
    EndsOn(Trail(s, r));
    var at := if r.x1 != s.x1 then 1 else 0;
    assert Leg(lines, at) == r;
    if r.x1 != s.x1 {
      assert Leg(lines, 0) == Lead(s, r);
    } else if OnSegment(Lead(s, r), p) {
      PointOn(Lead(s, r), p);
    }
    var still := Segment(r.x2, r.y2, r.x2, r.y2);
    if r.x2 != s.x2 {
      assert Leg(lines, at + 1) == still;
      assert Leg(lines, at + 2) == Trail(s, r);
      if OnSegment(still, p) {
        PointOn(still, p);
      }
    } else if OnSegment(Trail(s, r), p) {
      PointOn(Trail(s, r), p);
    }
  }

  lemma FlatOnClamped(b: Box, s: Segment, from: real, to: real, y: real, x1: real, x2: real, p: (real, real))
    requires b.ymin <= b.ymax && 0.0 <= from <= to <= 1.0
    requires x1 == Between(s.x1, s.x2, from) && x2 == Between(s.x1, s.x2, to)
    requires forall t :: from <= t <= to ==> Clamped(b, s, t).1 == y
    ensures OnSegment(Segment(x1, y, x2, y), p)
       <==> exists t {:trigger Clamped(b, s, t)} :: from <= t <= to && p == Clamped(b, s, t)
  {
    hide Between, Clamp;
    var f := Segment(x1, y, x2, y);
    if OnSegment(f, p) {
      var u :| 0.0 <= u <= 1.0 && p == At(f, u);
      BetweenCompose(s.x1, s.x2, from, to, u);
      BetweenSame(y, u);
      BetweenRange(from, to, u, u);
      assert p == Clamped(b, s, Between(from, to, u));
    }
    forall t | from <= t <= to && p == Clamped(b, s, t)
      ensures OnSegment(f, p)
    {
      var u := InnerParameter(from, to, t);
      BetweenCompose(s.x1, s.x2, from, to, u);
      BetweenSame(y, u);
      assert p == At(f, u);
    }
  }

  lemma MiddleOnClamped(b: Box, s: Segment, r: Segment, t0: real, t1: real, p: (real, real))
    requires b.ymin <= b.ymax && IsPart(s, Strip(b), r, t0, t1)
    ensures OnSegment(r, p) <==> exists t {:trigger Clamped(b, s, t)} :: t0 <= t <= t1 && p == Clamped(b, s, t)
  {
    hide Between;
    forall t | t0 <= t <= t1
      ensures Clamped(b, s, t) == At(s, t)
    {
      assert Inside(Strip(b), At(s, t));
      assert Strip(b)[0] == YMin(b.ymin) && Strip(b)[1] == YMax(b.ymax);
    }
    if OnSegment(r, p) {
      var u :| 0.0 <= u <= 1.0 && p == At(r, u);
      PartParameter(s, r, t0, t1, u);
      BetweenRange(t0, t1, u, u);
      assert p == Clamped(b, s, Between(t0, t1, u));
    }
    forall t | t0 <= t <= t1 && p == Clamped(b, s, t)
      ensures OnSegment(r, p)
    {
      var u := InnerParameter(t0, t1, t);
      PartParameter(s, r, t0, t1, u);
      assert p == At(r, u);
    }
  }

  lemma TraceIsClamped(b: Box, s: Segment, r: Segment, t0: real, t1: real, p: (real, real))
    requires b.ymin <= b.ymax && IsPart(s, Strip(b), r, t0, t1)
    requires r.y1 == Clamp(b, s.y1) && r.y2 == Clamp(b, s.y2)
    ensures OnTrace(s, r, p) <==> OnClamped(b, s, p)
  {
    AtEnds(s);
    assert Between(s.x1, s.x2, 0.0) == s.x1 && Between(s.x1, s.x2, 1.0) == s.x2;
    assert Between(s.y1, s.y2, 0.0) == s.y1 && Between(s.y1, s.y2, 1.0) == s.y2;
    hide Between, OnSegment;
    forall t | 0.0 <= t <= t0
      ensures Clamped(b, s, t).1 == r.y1
    {
      FlatPart(b, s, t, 0.0, t0, s.y1);
    }
    forall t | t1 <= t <= 1.0
      ensures Clamped(b, s, t).1 == r.y2
    {
      FlatPart(b, s, t, t1, 1.0, s.y2);
    }
    FlatOnClamped(b, s, 0.0, t0, r.y1, s.x1, r.x1, p);
    MiddleOnClamped(b, s, r, t0, t1, p);
    FlatOnClamped(b, s, t1, 1.0, r.y2, r.x2, s.x2, p);
  }

  // ---------------------------------------------------------------- any edge

  lemma OutsidePath(b: Box, s: Segment, p: (real, real))
    requires b.ymin <= b.ymax && (Above(b, s) || Below(b, s))
    ensures AllLines(EdgeLines(b, s))
    ensures OnPath(EdgeLines(b, s), p) <==> OnClamped(b, s, p)
  {
    var y := if Above(b, s) then b.ymax else b.ymin;
    forall t | 0.0 <= t <= 1.0
      ensures Clamped(b, s, t).1 == y
    {
      BetweenBounds(s.y1, s.y2, t);
    }
    assert Between(s.x1, s.x2, 0.0) == s.x1 && Between(s.x1, s.x2, 1.0) == s.x2;
    hide Between, Clamp, OnSegment;
    assert Leg(EdgeLines(b, s), 0) == Segment(s.x1, y, s.x2, y);
    FlatOnClamped(b, s, 0.0, 1.0, y, s.x1, s.x2, p);
  }

  /** The line commands for an edge draw exactly the edge with its ordinates clamped to the range. */
  lemma EdgeLinesDrawClamped(b: Box, s: Segment, p: (real, real))
    requires b.ymin <= b.ymax
    ensures AllLines(EdgeLines(b, s))
    ensures OnPath(EdgeLines(b, s), p) <==> OnClamped(b, s, p)
  {
    if Above(b, s) || Below(b, s) {
      OutsidePath(b, s, p);
    } else {
      PathIsTrace(b, s, p);
      ClipsAgree(b, s);
      var t0, t1 := ClipAllKeepsPart(Strip(b), s);
      TraceIsClamped(b, s, ClipYMax(b, ClipYMin(b, s)), t0, t1, p);
    }
  }

  function Slab(b: Box): seq<Half> {
    [XMin(b.xmin), XMax(b.xmax)]
  }

  lemma ClipXIsClipAll(b: Box, s: Segment)
    ensures ClipX(b, s) == ClipAll(Slab(b), s)
  {
    hide ClipSide;
    ClipTwo(XMin(b.xmin), XMax(b.xmax), s);
  }

  lemma InsideSlab(b: Box, p: (real, real))
    ensures Inside(Slab(b), p) <==> b.xmin <= p.0 <= b.xmax
  {
    assert Slab(b)[0] == XMin(b.xmin) && Slab(b)[1] == XMax(b.xmax);
  }

  ghost predicate OnVisible(b: Box, edge: Segment, p: (real, real)) {
    b.xmin <= p.0 <= b.xmax && OnClamped(b, edge, p)
  }

  /** An edge of a filled area is dropped exactly when it misses the horizontal range, and otherwise its
      commands draw exactly its part in that range, with clamped ordinates. */
  lemma VisibleEdgeDraws(b: Box, edge: Segment, p: (real, real))
    requires b.ymin <= b.ymax
    ensures ClipX(b, edge).None? ==> !OnVisible(b, edge, p)
    ensures ClipX(b, edge).Some? ==>
              var lines := EdgeLines(b, ClipX(b, edge).value);
              AllLines(lines) && (OnPath(lines, p) <==> OnVisible(b, edge, p))
  {
    ClipXIsClipAll(b, edge);
    var t0, t1 := ClipAllKeepsPart(Slab(b), edge);
    hide ClipX, ClipAll, Between, EdgeLines, Clamp, OnPath, AllLines;
    forall t | 0.0 <= t <= 1.0
      ensures b.xmin <= Clamped(b, edge, t).0 <= b.xmax <==> Inside(Slab(b), At(edge, t))
    {
      InsideSlab(b, At(edge, t));
    }
    if ClipX(b, edge).Some? {
      var s := ClipX(b, edge).value;
      EdgeLinesDrawClamped(b, s, p);
      if OnClamped(b, s, p) {
        var u :| 0.0 <= u <= 1.0 && p == Clamped(b, s, u);
        PartParameter(edge, s, t0, t1, u);
        BetweenRange(t0, t1, u, u);
        assert p == Clamped(b, edge, Between(t0, t1, u));
      }
      if OnVisible(b, edge, p) {
        var t :| 0.0 <= t <= 1.0 && p == Clamped(b, edge, t);
        var u := InnerParameter(t0, t1, t);
        PartParameter(edge, s, t0, t1, u);
        assert p == Clamped(b, s, u);
      }
    }
  }
}
