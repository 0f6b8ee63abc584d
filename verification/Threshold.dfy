/** The threshold plugin of flot (jquery.flot.threshold.js): splitting a gap-free series at a level. */
module Threshold {
  import opened Options
  import opened Reals

  type Point = (real, real)

  /** An output series: None is the null point that starts a new piece. */
  type Pieces = seq<Option<Point>>

  type Edge = (Point, Point)

  predicate Under(below: real, p: Point) {
    p.1 < below
  }

  /** Where the line between two points on different sides meets the level. */
  function Crossing(below: real, p: Point, q: Point): Point
    requires Under(below, p) != Under(below, q)
  {
    (q.0 + (below - q.1) * (q.0 - p.0) / (q.1 - p.1), below)
  }

  // ---------------------------------------------------------------- the loop

  method ThresholdData(points: seq<Point>, below: real, addCrossingPoints: bool)
    returns (newpoints: Pieces, threspoints: Pieces)
    ensures newpoints == Output(points, below, addCrossingPoints, false, |points|)
    ensures threspoints == Output(points, below, addCrossingPoints, true, |points|)
    ensures !addCrossingPoints ==> newpoints == Unbroken(Side(points, below, false))
    ensures !addCrossingPoints ==> threspoints == Unbroken(Side(points, below, true))
  {
    hide Crossing;
    newpoints, threspoints := [], [];
    var p := false;  // whether the current list is threspoints
    for i := 0 to |points|
      invariant newpoints == Output(points, below, addCrossingPoints, false, i)
      invariant threspoints == Output(points, below, addCrossingPoints, true, i)
      invariant 0 < i ==> p == Under(below, points[i - 1])
    {
      var prevp := p;
      p := points[i].1 < below;
      if addCrossingPoints && i > 0 && prevp != p {
        var inter := Crossing(below, points[i - 1], points[i]);
        if prevp {
          threspoints := threspoints + [Some(inter)];
          newpoints := newpoints + [None, Some(inter)];
        } else {
          newpoints := newpoints + [Some(inter)];
          threspoints := threspoints + [None, Some(inter)];
        }
      }
      if p {
        threspoints := threspoints + [Some(points[i])];
      } else {
        newpoints := newpoints + [Some(points[i])];
      }
    }
    assert points[..|points|] == points;
    if !addCrossingPoints {
      WithoutCrossings(points, below, false, |points|);
      WithoutCrossings(points, below, true, |points|);
    }
  }

  // ---------------------------------------------------------------- which points go where

  /** The points of one side, in their order: under the level, or on it and above. */
  ghost function Side(points: seq<Point>, below: real, under: bool): seq<Point> {
    if points == [] then []
    else
      var init, p := points[..|points| - 1], points[|points| - 1];
      Side(init, below, under) + if under then (if p.1 < below then [p] else []) else if p.1 < below then [] else [p]
  }

  /** A series without gaps. */
  ghost function Unbroken(points: seq<Point>): Pieces {
    seq(|points|, i requires 0 <= i < |points| => Some(points[i]))
  }

  /** Without crossing points, as for bars and points, the two outputs are the points of the two sides. */
  lemma {:induction false} WithoutCrossings(points: seq<Point>, below: real, under: bool, n: nat)
    requires n <= |points|
    ensures Output(points, below, false, under, n) == Unbroken(Side(points[..n], below, under))
  {
    if n > 0 {
      WithoutCrossings(points, below, under, n - 1);
      assert points[..n][..n - 1] == points[..n - 1];
    }
  }

  /** What point i adds to the list of one side. */
  ghost function Added(points: seq<Point>, below: real, crossings: bool, under: bool, i: nat): Pieces
    requires i < |points|
  {
    (if crossings && i > 0 && Under(below, points[i - 1]) != Under(below, points[i]) then
       var c := Crossing(below, points[i - 1], points[i]);
       if Under(below, points[i - 1]) == under then [Some(c)] else [None, Some(c)]
     else [])
    + if Under(below, points[i]) == under then [Some(points[i])] else []
  }

  ghost function Output(points: seq<Point>, below: real, crossings: bool, under: bool, n: nat): Pieces
    requires n <= |points|
  {
    if n == 0 then []
    else Output(points, below, crossings, under, n - 1) + Added(points, below, crossings, under, n - 1)
  }

  // ---------------------------------------------------------------- what is drawn

  /** The edges a list draws: between neighbouring points that are not separated. */
  ghost function Edges(pieces: Pieces): seq<Edge> {
    if |pieces| < 2 then []
    else
      var n := |pieces|;
      Edges(pieces[..n - 1])
      + if pieces[n - 2].Some? && pieces[n - 1].Some? then [(pieces[n - 2].value, pieces[n - 1].value)] else []
  }

  /** The edges of the original polyline up to point n, cut at the level, that lie on one side. */
  ghost function CutEdges(points: seq<Point>, below: real, under: bool, n: nat): seq<Edge>
    requires n <= |points|
  {
    if n == 0 then [] else CutEdges(points, below, under, n - 1) + CutAt(points, below, under, n - 1)
  }

  /** The part on one side of the edge that ends in point i. */
  ghost function CutAt(points: seq<Point>, below: real, under: bool, i: nat): seq<Edge>
    requires i < |points|
  {
    if i == 0 then []
    else
      var p, q := points[i - 1], points[i];
      if Under(below, p) == Under(below, q) then
        if Under(below, q) == under then [(p, q)] else []
      else if Under(below, p) == under then [(p, Crossing(below, p, q))]
      else [(Crossing(below, p, q), q)]
  }

  lemma EdgesAppend(pieces: Pieces, c: Option<Point>)
    ensures Edges(pieces + [c]) == Edges(pieces)
              + if pieces != [] && pieces[|pieces| - 1].Some? && c.Some? then [(pieces[|pieces| - 1].value, c.value)]
                  else []
  {
  }

  lemma EdgesAppendTwo(pieces: Pieces, c: Option<Point>, d: Option<Point>)
    ensures Edges(pieces + [c, d]) == Edges(pieces + [c]) + if c.Some? && d.Some? then [(c.value, d.value)] else []
  {
    assert pieces + [c, d] == (pieces + [c]) + [d];
    EdgesAppend(pieces + [c], d);
  }

  /** A list is ready for point i of its own side: it ends in point i - 1 if that is on this side. */
  ghost predicate EndsIn(points: seq<Point>, below: real, under: bool, i: nat, pieces: Pieces)
    requires i <= |points|
  {
    0 < i && Under(below, points[i - 1]) == under ==> pieces != [] && pieces[|pieces| - 1] == Some(points[i - 1])
  }

  lemma AddedEdges(points: seq<Point>, below: real, under: bool, i: nat, before: Pieces)
    requires i < |points| && EndsIn(points, below, under, i, before)
    requires i == 0 ==> before == []
    ensures var after := before + Added(points, below, true, under, i);
            Edges(after) == Edges(before) + CutAt(points, below, under, i) && EndsIn(points, below, under, i + 1, after)
  {
    hide Crossing, Under, Edges;
    var q, added := points[i], Added(points, below, true, under, i);
    var here := Under(below, q) == under;
    if i == 0 || Under(below, points[i - 1]) == Under(below, q) {
      assert added == if here then [Some(q)] else [];
      if here {
        EdgesAppend(before, Some(q));
      } else {
        assert before + added == before;
      }
    } else {
      var c := Crossing(below, points[i - 1], q);
      if here {
        assert before + added == (before + [None, Some(c)]) + [Some(q)];
        EdgesAppend(before, None);
        EdgesAppendTwo(before, None, Some(c));
        EdgesAppend(before + [None, Some(c)], Some(q));
      } else {
        assert added == [Some(c)];
        EdgesAppend(before, Some(c));
      }
    }
  }

  /** Splitting preserves the drawing: each output draws exactly the pieces of the original polyline on
      its side of the level, in order. */
  lemma {:induction false} SplitKeepsDrawing(points: seq<Point>, below: real, under: bool, n: nat)
    requires n <= |points|
    ensures Edges(Output(points, below, true, under, n)) == CutEdges(points, below, under, n)
    ensures EndsIn(points, below, under, n, Output(points, below, true, under, n))
  {
    hide Added, CutAt;
    if n > 0 {
      SplitKeepsDrawing(points, below, under, n - 1);
      AddedEdges(points, below, under, n - 1, Output(points, below, true, under, n - 1));
    }
  }

  /** The two outputs together draw each cut edge of the original once. */
  ghost function AllCutEdges(points: seq<Point>, below: real, n: nat): seq<Edge>
    requires n <= |points|
  {
    if n == 0 then [] else AllCutEdges(points, below, n - 1) + AllCutAt(points, below, n - 1)
  }

  /** The edge that ends in point i, cut in two where it crosses the level. */
  ghost function AllCutAt(points: seq<Point>, below: real, i: nat): seq<Edge>
    requires i < |points|
  {
    if i == 0 then []
    else
      var p, q := points[i - 1], points[i];
      if Under(below, p) == Under(below, q) then [(p, q)]
      else [(p, Crossing(below, p, q)), (Crossing(below, p, q), q)]
  }

  lemma CutAtPartition(points: seq<Point>, below: real, i: nat)
    requires i < |points|
    ensures multiset(CutAt(points, below, false, i)) + multiset(CutAt(points, below, true, i))
            == multiset(AllCutAt(points, below, i))
  {
    hide Crossing, Under;
  }

  lemma {:induction false} OutputsPartition(points: seq<Point>, below: real, n: nat)
    requires n <= |points|
    ensures multiset(CutEdges(points, below, false, n)) + multiset(CutEdges(points, below, true, n))
            == multiset(AllCutEdges(points, below, n))
  {
    hide CutAt, AllCutAt;
    if n > 0 {
      OutputsPartition(points, below, n - 1);
      CutAtPartition(points, below, n - 1);
    }
  }

  /** A crossing point lies on the original edge and on the level. */
  lemma CrossingOnEdge(below: real, p: Point, q: Point) returns (t: real)
    requires Under(below, p) != Under(below, q)
    ensures 0.0 <= t <= 1.0
    ensures Crossing(below, p, q).0 == p.0 + t * (q.0 - p.0)
    ensures Crossing(below, p, q).1 == p.1 + t * (q.1 - p.1) == below
  {
    var d := q.1 - p.1;
    t := (below - p.1) / d;
    FractionUp(below - p.1, d, t);
    CrossingX(below, p, q, t);
    hide Crossing;
  }

  /** below lies between the ordinates, on the way from the first to the second. */
  lemma FractionUp(u: real, d: real, t: real)
    requires d != 0.0 && t == u / d
    requires if 0.0 < d then 0.0 <= u <= d else d <= u <= 0.0
    ensures 0.0 <= t <= 1.0 && t * d == u
  {
    QuotientTimes(u, d);
    if 0.0 < d {
      UnitFraction(u, d);
    } else {
      UnitFraction(-u, -d);
      QuotientIs(t, -d, -u);
    }
  }

  lemma CrossingX(below: real, p: Point, q: Point, t: real)
    requires Under(below, p) != Under(below, q) && t * (q.1 - p.1) == below - p.1
    ensures Crossing(below, p, q).0 == p.0 + t * (q.0 - p.0) && Crossing(below, p, q).1 == below
  {
    CrossingAbscissa(below - q.1, q.0 - p.0, q.1 - p.1, t);
    FromOtherEnd(p.0, q.0, t, Crossing(below, p, q).0);
  }

  lemma FromOtherEnd(x: real, x': real, t: real, c: real)
    requires c == x' + (t * (x' - x) - (x' - x))
    ensures c == x + t * (x' - x)
  {
  }

  lemma CrossingAbscissa(u: real, dx: real, d: real, t: real)
    requires d != 0.0 && t * d == u + d
    ensures u * dx / d == t * dx - dx
  {
  }

  lemma UnitFraction(u: real, d: real)
    requires 0.0 <= u <= d && 0.0 < d
    ensures 0.0 <= u / d <= 1.0
  {
  }

  // ---------------------------------------------------------------- the points of the outputs

  ghost function Vertices(pieces: Pieces): multiset<Point> {
    if pieces == [] then multiset{}
    else Vertices(pieces[..|pieces| - 1]) + if pieces[|pieces| - 1].Some? then multiset{pieces[|pieces| - 1].value}
        else multiset{}
  }

  ghost function Crossings(points: seq<Point>, below: real, n: nat): multiset<Point>
    requires n <= |points|
  {
    if n == 0 then multiset{} else Crossings(points, below, n - 1) + CrossingsAt(points, below, n - 1)
  }

  /** The crossing on the edge that ends in point i, if there is one. */
  ghost function CrossingsAt(points: seq<Point>, below: real, i: nat): multiset<Point>
    requires i < |points|
  {
    if i > 0 && Under(below, points[i - 1]) != Under(below, points[i]) then
      multiset{Crossing(below, points[i - 1], points[i])}
    else multiset{}
  }

  lemma {:induction false} VerticesConcat(a: Pieces, b: Pieces)
    ensures Vertices(a + b) == Vertices(a) + Vertices(b)
  {
    if b == [] {
      assert a + b == a;
    } else {
      VerticesConcat(a, b[..|b| - 1]);
      assert (a + b)[..|a + b| - 1] == a + b[..|b| - 1];
    }
  }

  lemma VerticesOfNothing()
    ensures Vertices([]) == multiset{}
  {
  }

  lemma VerticesOfOne(p: Point)
    ensures Vertices([Some(p)]) == multiset{p}
  {
  }

  lemma VerticesOfGap(p: Point)
    ensures Vertices([None, Some(p)]) == multiset{p}
  {
    var gap: Pieces := [None];
    assert gap[..0] == [];
    assert [None, Some(p)][..1] == gap;
  }

  /** Every original point comes out once, on its own side, and every crossing point once on each side. */
  lemma {:induction false} VerticesConserved(points: seq<Point>, below: real, n: nat)
    requires n <= |points|
    ensures Vertices(Output(points, below, true, false, n)) + Vertices(Output(points, below, true, true, n))
            == multiset(points[..n]) + Crossings(points, below, n) + Crossings(points, below, n)
  {
    hide Added, CrossingsAt, Vertices;
    if n == 0 {
      VerticesOfNothing();
      assert points[..0] == [];
    } else {
      VerticesConserved(points, below, n - 1);
      AddedVertices(points, below, n - 1);
      Rearrange(Vertices(Output(points, below, true, false, n - 1)), Vertices(Added(points, below, true, false, n - 1)),
                Vertices(Output(points, below, true, true, n - 1)), Vertices(Added(points, below, true, true, n - 1)),
                multiset(points[..n - 1]), Crossings(points, below, n - 1), multiset{points[n - 1]},
                CrossingsAt(points, below, n - 1));
      VerticesConcat(Output(points, below, true, false, n - 1), Added(points, below, true, false, n - 1));
      VerticesConcat(Output(points, below, true, true, n - 1), Added(points, below, true, true, n - 1));
      MultisetOfPrefix(points, n);
    }
  }

  /** With crossing points each output has the points of its side and one point for every crossing. */
  lemma {:induction false} SideVertices(points: seq<Point>, below: real, under: bool, n: nat)
    requires n <= |points|
    ensures Vertices(Output(points, below, true, under, n))
         == multiset(Side(points[..n], below, under)) + Crossings(points, below, n)
  {
    hide Added, CrossingsAt, Vertices, Output, Crossings, Side;
    if n == 0 {
      NothingYet(points, below, under);
    } else {
      SideVertices(points, below, under, n - 1);
      OneMore(points, below, under, n);
      var own := SideAdds(points, below, under, n - 1);
      PairUp(Vertices(Output(points, below, true, under, n - 1)), Side(points[..n - 1], below, under),
             Crossings(points, below, n - 1), Vertices(Added(points, below, true, under, n - 1)), own,
             CrossingsAt(points, below, n - 1));
    }
  }

  lemma NothingYet(points: seq<Point>, below: real, under: bool)
    ensures Vertices(Output(points, below, true, under, 0)) == Crossings(points, below, 0) == multiset{}
    ensures Side(points[..0], below, under) == []
  {
  }

  lemma OneMore(points: seq<Point>, below: real, under: bool, n: nat)
    requires 0 < n <= |points|
    ensures Vertices(Output(points, below, true, under, n))
         == Vertices(Output(points, below, true, under, n - 1)) + Vertices(Added(points, below, true, under, n - 1))
    ensures Crossings(points, below, n) == Crossings(points, below, n - 1) + CrossingsAt(points, below, n - 1)
  {
    hide Added, CrossingsAt, Vertices;
    VerticesConcat(Output(points, below, true, under, n - 1), Added(points, below, true, under, n - 1));
  }

  lemma PairUp(v: multiset<Point>, side: seq<Point>, c: multiset<Point>, v': multiset<Point>, own: seq<Point>,
               c': multiset<Point>)
    requires v == multiset(side) + c && v' == multiset(own) + c'
    ensures v + v' == multiset(side + own) + (c + c')
  {
  }

  lemma SideAdds(points: seq<Point>, below: real, under: bool, i: nat) returns (own: seq<Point>)
    requires i < |points|
    ensures Side(points[..i + 1], below, under) == Side(points[..i], below, under) + own
    ensures Vertices(Added(points, below, true, under, i)) == multiset(own) + CrossingsAt(points, below, i)
  {
    hide Crossing;
    own := if Under(below, points[i]) == under then [points[i]] else [];
    assert points[..i + 1][..i] == points[..i];
    hide Side;
    VerticesOfNothing();
    VerticesOfOne(points[i]);
    if i > 0 && Under(below, points[i - 1]) != Under(below, points[i]) {
      var c := Crossing(below, points[i - 1], points[i]);
      VerticesOfOne(c);
      VerticesOfGap(c);
      VerticesConcat([None, Some(c)], [Some(points[i])]);
      assert [Some(c)] + [] == [Some(c)];
    }
  }

  lemma MultisetOfPrefix(points: seq<Point>, n: nat)
    requires 0 < n <= |points|
    ensures multiset(points[..n]) == multiset(points[..n - 1]) + multiset{points[n - 1]}
  {
    assert points[..n] == points[..n - 1] + [points[n - 1]];
  }

  lemma Rearrange(a: multiset<Point>, a': multiset<Point>, b: multiset<Point>, b': multiset<Point>,
                  p: multiset<Point>, c: multiset<Point>, p': multiset<Point>, c': multiset<Point>)
    requires a + b == p + c + c && a' + b' == p' + c' + c'
    ensures (a + a') + (b + b') == (p + p') + (c + c') + (c + c')
  {
    forall x
      ensures ((a + a') + (b + b'))[x] == ((p + p') + (c + c') + (c + c'))[x]
    {
      assert (a + b)[x] == (p + c + c)[x] && (a' + b')[x] == (p' + c' + c')[x];
    }
  }

  lemma AddedVertices(points: seq<Point>, below: real, i: nat)
    requires i < |points|
    ensures Vertices(Added(points, below, true, false, i)) + Vertices(Added(points, below, true, true, i))
            == multiset{points[i]} + CrossingsAt(points, below, i) + CrossingsAt(points, below, i)
  {
    hide Crossing, Under;
    VerticesOfOne(points[i]);
    if i > 0 && Under(below, points[i - 1]) != Under(below, points[i]) {
      var c := Crossing(below, points[i - 1], points[i]);
      VerticesOfOne(c);
      VerticesOfGap(c);
      VerticesConcat([None, Some(c)], [Some(points[i])]);
    }
  }

  /** Each output stays on its side: at or above the level, or at or below it. */
  lemma {:induction false} OutputsStayOnSide(points: seq<Point>, below: real, under: bool, n: nat)
    requires n <= |points|
    ensures forall c {:trigger c in Output(points, below, true, under, n)} ::
              c in Output(points, below, true, under, n) && c.Some? ==>
                if under then c.value.1 <= below else below <= c.value.1
  {
    hide Added;
    if n > 0 {
      OutputsStayOnSide(points, below, under, n - 1);
      AddedStaysOnSide(points, below, under, n - 1);
    }
  }

  lemma AddedStaysOnSide(points: seq<Point>, below: real, under: bool, i: nat)
    requires i < |points|
    ensures forall c {:trigger c in Added(points, below, true, under, i)} ::
              c in Added(points, below, true, under, i) && c.Some? ==>
                if under then c.value.1 <= below else below <= c.value.1
  {
  }
}
