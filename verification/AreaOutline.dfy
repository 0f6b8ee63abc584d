/** What plotLineArea draws for a whole run of points (jquery.flot.js:2331-2461): the clamped top of the area
    forwards and its clamped bottom backwards, joined by vertical edges. */
module AreaOutline {
  import opened AreaShape
  import opened AreaSweep
  import opened Clip

  // ---------------------------------------------------------------- paths

  ghost predicate IsPath(lines: seq<Command>) {
    lines != [] && AllLines(lines)
  }

  function Start(lines: seq<Command>): (real, real)
    requires lines != [] && lines[0].LineTo?
  {
    (lines[0].x, lines[0].y)
  }

  function End(lines: seq<Command>): (real, real)
    requires lines != [] && lines[|lines| - 1].LineTo?
  {
    (lines[|lines| - 1].x, lines[|lines| - 1].y)
  }

  lemma JoinEnds(front: seq<Command>, back: seq<Command>)
    requires IsPath(front) && IsPath(back)
    ensures IsPath(front + back) && Start(front + back) == Start(front) && End(front + back) == End(back)
  {
  }

  lemma PathEnds(lines: seq<Command>)
    requires IsPath(lines)
    ensures lines[0].LineTo? && lines[|lines| - 1].LineTo?
  {
  }

  /** A path that starts where another one of at least two vertices ends adds what it draws itself. */
  lemma PathsJoin(front: seq<Command>, back: seq<Command>, p: (real, real))
    requires IsPath(front) && IsPath(back) && 1 < |back| && End(front) == Start(back)
    ensures IsPath(front + back)
    ensures OnPath(front + back, p) <==> OnPath(front, p) || OnPath(back, p)
  {
    var all, n := front + back, |front|;
    hide OnSegment;
    forall k: nat | k + 1 < |all|
      ensures k + 1 < n ==> Leg(all, k) == Leg(front, k)
      ensures n <= k ==> Leg(all, k) == Leg(back, k - n)
    {
    }
    if OnPath(all, p) {
      var k: nat :| k + 1 < |all| && OnSegment(Leg(all, k), p);
      if k + 1 == n {
        PointOn(Leg(all, k), p);
        EndsOn(Leg(back, 0));
      }
    }
    forall k: nat | k + 1 < n && OnSegment(Leg(front, k), p)
      ensures OnPath(all, p)
    {
      assert OnSegment(Leg(all, k), p);
    }
    forall k: nat | k + 1 < |back| && OnSegment(Leg(back, k), p)
      ensures OnPath(all, p)
    {
      assert OnSegment(Leg(all, n + k), p);
    }
  }

  // ---------------------------------------------------------------- walks

  /** Edges that are connected and all go to the right, or all to the left. */
  ghost predicate IsWalk(edges: seq<Segment>, rightwards: bool) {
    && (forall k :: 0 <= k < |edges| ==> if rightwards then edges[k].x1 <= edges[k].x2 else edges[k].x2 <= edges[k].x1)
    && (forall k {:trigger edges[k]} :: 0 < k < |edges| ==>
          edges[k - 1].x2 == edges[k].x1 && edges[k - 1].y2 == edges[k].y1)
  }

  lemma WalkInit(edges: seq<Segment>, rightwards: bool)
    requires IsWalk(edges, rightwards) && edges != []
    ensures IsWalk(edges[..|edges| - 1], rightwards)
    ensures 1 < |edges| ==>
              && edges[|edges| - 2].x2 == edges[|edges| - 1].x1
              && edges[|edges| - 2].y2 == edges[|edges| - 1].y1
  {
  }

  /** The line commands for the visible edges of a walk. */
  ghost function WalkLines(b: Box, edges: seq<Segment>): seq<Command> {
    if edges == [] then []
    else
      var last := ClipX(b, edges[|edges| - 1]);
      WalkLines(b, edges[..|edges| - 1]) + if last.None? then [] else EdgeLines(b, last.value)
  }

  ghost predicate OnWalk(b: Box, edges: seq<Segment>, p: (real, real)) {
    exists k :: 0 <= k < |edges| && OnVisible(b, edges[k], p)
  }

  ghost predicate IsBox(b: Box) {
    b.xmin <= b.xmax && b.ymin <= b.ymax
  }

  lemma EdgeEnds(b: Box, s: Segment)
    requires b.ymin <= b.ymax
    ensures IsPath(EdgeLines(b, s)) && 1 < |EdgeLines(b, s)|
    ensures Start(EdgeLines(b, s)) == (s.x1, Clamp(b, s.y1))
    ensures End(EdgeLines(b, s)) == (s.x2, Clamp(b, s.y2))
  {
    if !Above(b, s) && !Below(b, s) {
      ClipsAgree(b, s);
      hide ClipYMin, ClipYMax, ClipAll;
    }
  }

  /** Which edges are visible, and where they end then, follows from the abscissae; an end in the horizontal
      range is not moved. */
  lemma ClipXEnds(b: Box, s: Segment)
    requires IsBox(b)
    ensures ClipX(b, s).Some? <==> (b.xmin <= s.x1 || b.xmin <= s.x2) && (s.x1 <= b.xmax || s.x2 <= b.xmax)
    ensures ClipX(b, s).Some? ==>
              var r := ClipX(b, s).value;
              && r.x1 == (if s.x1 < b.xmin then b.xmin else if b.xmax < s.x1 then b.xmax else s.x1)
              && r.x2 == (if s.x2 < b.xmin then b.xmin else if b.xmax < s.x2 then b.xmax else s.x2)
              && (b.xmin <= s.x1 <= b.xmax ==> r.y1 == s.y1)
              && (b.xmin <= s.x2 <= b.xmax ==> r.y2 == s.y2)
  {
    hide Intercept;
  }

  /** The visible edges of a walk follow each other without a break. */
  lemma VisibleBefore(b: Box, edges: seq<Segment>, rightwards: bool, v: nat)
    requires IsBox(b) && IsWalk(edges, rightwards) && v < |edges| - 1
    requires ClipX(b, edges[v]).Some? && ClipX(b, edges[|edges| - 1]).Some?
    ensures ClipX(b, edges[|edges| - 2]).Some?
    ensures b.xmin <= edges[|edges| - 1].x1 <= b.xmax
  {
    var n := |edges| - 1;
    WalkOrder(edges, rightwards, v, n - 1);
    ClipXEnds(b, edges[v]);
    ClipXEnds(b, edges[n]);
    ClipXEnds(b, edges[n - 1]);
    hide ClipX;
    assert edges[n - 1].x2 == edges[n].x1;
  }

  lemma {:induction false} WalkOrder(edges: seq<Segment>, rightwards: bool, v: nat, n: nat)
    requires IsWalk(edges, rightwards) && v <= n < |edges|
    ensures if rightwards then edges[v].x2 <= edges[n].x2 else edges[n].x2 <= edges[v].x2
    decreases n
  {
    if v < n {
      WalkOrder(edges, rightwards, v, n - 1);
      assert edges[n - 1].x2 == edges[n].x1;
    }
  }

  lemma {:induction false} WalkStarts(b: Box, edges: seq<Segment>)
    requires b.ymin <= b.ymax
    ensures AllLines(WalkLines(b, edges))
    ensures WalkLines(b, edges) != [] <==> exists v :: 0 <= v < |edges| && ClipX(b, edges[v]).Some?
  {
    hide ClipX, EdgeLines;
    if edges != [] {
      var init, last := edges[..|edges| - 1], edges[|edges| - 1];
      WalkStarts(b, init);
      if ClipX(b, last).Some? {
        EdgeEnds(b, ClipX(b, last).value);
      }
      forall v | 0 <= v < |init|
        ensures init[v] == edges[v]
      {
      }
    }
  }

  /** The commands of a walk draw exactly its part in the horizontal range, clamped. */
  lemma {:induction false} WalkDraws(b: Box, edges: seq<Segment>, rightwards: bool, p: (real, real))
    requires IsBox(b) && IsWalk(edges, rightwards)
    ensures AllLines(WalkLines(b, edges))
    ensures OnPath(WalkLines(b, edges), p) <==> OnWalk(b, edges, p)
  {
    hide ClipX, EdgeLines, OnVisible, OnPath;
    if edges == [] {
      EmptyPath(p);
    } else {
      var init, last := edges[..|edges| - 1], edges[|edges| - 1];
      WalkDraws(b, init, rightwards, p);
      WalkStarts(b, init);
      VisibleEdgeDraws(b, last, p);
      OnWalkAppend(b, init, last, p);
      assert edges == init + [last];
      var before := WalkLines(b, init);
      if ClipX(b, last).Some? {
        var s := ClipX(b, last).value;
        EdgeEnds(b, s);
        if before == [] {
          assert before + EdgeLines(b, s) == EdgeLines(b, s);
          EmptyPath(p);
        } else {
          var v :| 0 <= v < |init| && ClipX(b, init[v]).Some?;
          WalkJoins(b, edges, rightwards, v);
          PathsJoin(before, EdgeLines(b, s), p);
        }
      } else {
        assert before + [] == before;
      }
    }
  }

  lemma EmptyPath(p: (real, real))
    ensures !OnPath([], p)
  {
  }

  lemma OnWalkAppend(b: Box, init: seq<Segment>, last: Segment, p: (real, real))
    ensures OnWalk(b, init + [last], p) <==> OnWalk(b, init, p) || OnVisible(b, last, p)
  {
    hide OnVisible;
    var edges := init + [last];
    assert edges[|init|] == last;
    assert forall k :: 0 <= k < |init| ==> edges[k] == init[k];
  }

  /** A visible edge starts where the commands of the walk before it end. */
  lemma WalkJoins(b: Box, edges: seq<Segment>, rightwards: bool, v: nat)
    requires IsBox(b) && IsWalk(edges, rightwards) && v < |edges| - 1
    requires ClipX(b, edges[v]).Some? && ClipX(b, edges[|edges| - 1]).Some?
    ensures var before, s := WalkLines(b, edges[..|edges| - 1]), ClipX(b, edges[|edges| - 1]).value;
            IsPath(before) && EdgeLines(b, s) != [] && EdgeLines(b, s)[0].LineTo? && End(before)
                == Start(EdgeLines(b, s))
  {
    VisibleBefore(b, edges, rightwards, v);
    WalkInit(edges, rightwards);
    var n := |edges| - 1;
    var init := edges[..n];
    WalkStarts(b, init);
    ClipXEnds(b, edges[n - 1]);
    ClipXEnds(b, edges[n]);
    hide ClipX, EdgeLines, IsWalk, Clamp;
    EdgeEnds(b, ClipX(b, edges[n - 1]).value);
    EdgeEnds(b, ClipX(b, edges[n]).value);
    assert init[|init| - 1] == edges[n - 1];
    var front, back := WalkLines(b, init[..n - 1]), EdgeLines(b, ClipX(b, edges[n - 1]).value);
    assert WalkLines(b, init) == front + back;
    hide WalkLines;
    assert (front + back)[|front + back| - 1] == back[|back| - 1];
  }

  // ---------------------------------------------------------------- where a walk starts and ends

  function ClampX(b: Box, x: real): real {
    if x < b.xmin then b.xmin else if b.xmax < x then b.xmax else x
  }

  lemma {:induction false} WalkOrderFromStart(edges: seq<Segment>, rightwards: bool, n: nat)
    requires IsWalk(edges, rightwards) && n < |edges|
    ensures if rightwards then edges[0].x1 <= edges[n].x1 else edges[n].x1 <= edges[0].x1
  {
    if n > 0 {
      WalkOrderFromStart(edges, rightwards, n - 1);
      assert edges[n - 1].x2 == edges[n].x1;
    }
  }

  /** An edge that is visible first on a walk starts where the walk does, or at the side of the box that the
      walk reaches first. */
  lemma FirstVisible(b: Box, edges: seq<Segment>, rightwards: bool)
    requires IsBox(b) && IsWalk(edges, rightwards) && edges != []
    requires ClipX(b, edges[|edges| - 1]).Some?
    requires 1 < |edges| ==> ClipX(b, edges[|edges| - 2]).None?
    ensures ClampX(b, edges[|edges| - 1].x1) == ClampX(b, edges[0].x1)
  {
    var n := |edges| - 1;
    if n > 0 {
      assert edges[n - 1].x2 == edges[n].x1;
      ClipXEnds(b, edges[n]);
      ClipXEnds(b, edges[n - 1]);
      WalkOrderFromStart(edges, rightwards, n);
    }
    hide ClipX;
  }

  /** An edge that is not visible any more lies behind the side of the box that the walk leaves through. */
  lemma GoneBehind(b: Box, edges: seq<Segment>, rightwards: bool, v: nat)
    requires IsBox(b) && IsWalk(edges, rightwards) && v < |edges| - 1
    requires ClipX(b, edges[v]).Some? && ClipX(b, edges[|edges| - 1]).None?
    ensures ClampX(b, edges[|edges| - 1].x2) == ClampX(b, edges[|edges| - 2].x2)
  {
    var n := |edges| - 1;
    assert edges[n - 1].x2 == edges[n].x1;
    ClipXEnds(b, edges[n]);
    ClipXEnds(b, edges[v]);
    WalkOrder(edges, rightwards, v, n - 1);
    hide ClipX;
  }

  /** The commands of a walk start and end at the ends of the walk, or at the sides of the box before them. */
  lemma {:induction false} WalkEnds(b: Box, edges: seq<Segment>, rightwards: bool)
    requires IsBox(b) && IsWalk(edges, rightwards) && WalkLines(b, edges) != []
    ensures edges != [] && IsPath(WalkLines(b, edges))
    ensures Start(WalkLines(b, edges)).0 == ClampX(b, edges[0].x1)
    ensures End(WalkLines(b, edges)).0 == ClampX(b, edges[|edges| - 1].x2)
  {
    hide ClipX, EdgeLines, ClampX, IsWalk, Clamp, AllLines;
    var n := |edges| - 1;
    var init, last := edges[..n], edges[n];
    var before := WalkLines(b, init);
    WalkInit(edges, rightwards);
    if ClipX(b, last).None? {
      assert before + [] == before;
      WalkStarts(b, init);
      var v :| 0 <= v < |init| && ClipX(b, init[v]).Some?;
      GoneBehind(b, edges, rightwards, v);
      WalkEnds(b, init, rightwards);
    } else {
      var lines := EdgeLines(b, ClipX(b, last).value);
      EdgeEnds(b, ClipX(b, last).value);
      ClampedStart(b, last);
      if before == [] {
        assert before + lines == lines;
        WalkStarts(b, init);
        assert n > 0 ==> init[n - 1] == edges[n - 1];
        FirstVisible(b, edges, rightwards);
      } else {
        WalkEnds(b, init, rightwards);
        JoinEnds(before, lines);
      }
    }
    PathEnds(WalkLines(b, edges));
  }

  lemma ClampedStart(b: Box, s: Segment)
    requires IsBox(b) && ClipX(b, s).Some?
    ensures ClipX(b, s).value.x1 == ClampX(b, s.x1) && ClipX(b, s).value.x2 == ClampX(b, s.x2)
  {
    ClipXEnds(b, s);
  }

  // ---------------------------------------------------------------- a run of points

  /** The points from a up to e are no gaps and go to the right. */
  ghost predicate IsRun(points: AreaPoints, a: nat, e: nat) {
    && a < e
    && (forall k :: a <= k < e ==> k < |points| && points[k].Some? && PointAt(points, k).Some?)
    && forall k: nat {:trigger PointAt(points, k)} :: a < k < e ==> Rises(points, k)
  }

  ghost predicate Rises(points: AreaPoints, k: int) {
    PointAt(points, k - 1).Some? && PointAt(points, k).Some?
        && PointAt(points, k - 1).value.x <= PointAt(points, k).value.x
  }

  /** The edges of the top of a run, up to point i. */
  ghost function TopEdges(points: AreaPoints, a: nat, i: nat): seq<Segment>
    requires forall k :: a <= k <= i ==> PointAt(points, k).Some?
    decreases i
  {
    if i <= a then []
    else
      var p, q := PointAt(points, i - 1).value, PointAt(points, i).value;
      TopEdges(points, a, i - 1) + [Segment(p.x, p.top, q.x, q.top)]
  }

  /** The edges of the bottom of a run, back from point hi down to point i. */
  ghost function BottomEdges(points: AreaPoints, hi: nat, i: nat): seq<Segment>
    requires forall k :: i <= k <= hi ==> PointAt(points, k).Some?
    decreases hi - i
  {
    if hi <= i then []
    else
      var p, q := PointAt(points, i + 1).value, PointAt(points, i).value;
      BottomEdges(points, hi, i + 1) + [Segment(p.x, p.bottom, q.x, q.bottom)]
  }

  lemma WalkAppend(edges: seq<Segment>, rightwards: bool, e: Segment)
    requires IsWalk(edges, rightwards)
    requires if rightwards then e.x1 <= e.x2 else e.x2 <= e.x1
    requires edges != [] ==> edges[|edges| - 1].x2 == e.x1 && edges[|edges| - 1].y2 == e.y1
    ensures IsWalk(edges + [e], rightwards)
  {
  }

  lemma {:induction false} TopWalk(points: AreaPoints, a: nat, e: nat, i: nat)
    requires IsRun(points, a, e) && a <= i < e
    ensures var edges := TopEdges(points, a, i);
            && IsWalk(edges, true) && (edges != [] <==> a < i)
            && (a < i ==>
                  && edges[0].x1 == PointAt(points, a).value.x
                  && edges[|edges| - 1].x2 == PointAt(points, i).value.x
                  && edges[|edges| - 1].y2 == PointAt(points, i).value.top)
    decreases i
  {
    if a < i {
      TopWalk(points, a, e, i - 1);
      assert Rises(points, i);
      WalkAppend(TopEdges(points, a, i - 1), true, Joint(PointAt(points, i - 1).value, PointAt(points, i).value, 1));
    }
  }

  lemma {:induction false} BottomWalk(points: AreaPoints, a: nat, e: nat, i: nat)
    requires IsRun(points, a, e) && a <= i < e
    ensures var edges := BottomEdges(points, e - 1, i);
            && IsWalk(edges, false) && (edges != [] <==> i < e - 1)
            && (i < e - 1 ==>
                  && edges[0].x1 == PointAt(points, e - 1).value.x
                  && edges[|edges| - 1].x2 == PointAt(points, i).value.x
                  && edges[|edges| - 1].y2 == PointAt(points, i).value.bottom)
    decreases e - i
  {
    if i < e - 1 {
      BottomWalk(points, a, e, i + 1);
      assert Rises(points, i + 1);
      WalkAppend(BottomEdges(points, e - 1, i + 1), false,
                 Joint(PointAt(points, i + 1).value, PointAt(points, i).value, 2));
    }
  }

  ghost predicate Opens(b: Box, top: seq<Command>, lines: seq<Command>) {
    if lines == [] then top == []
    else lines[0].LineTo? && top == [BeginPath, MoveTo(Start(lines).0, Bottom(b))] + lines
  }

  ghost predicate AnyVisible(points: AreaPoints, b: Box, a: int, i: int) {
    exists k :: a < k <= i && Vis(points, b, k)
  }

  /** The commands of the top are those of its walk, after the opening of the area. */
  lemma {:induction false} TopIsWalk(points: AreaPoints, b: Box, a: nat, i: nat)
    requires IsBox(b) && a <= i && forall k :: a <= k <= i ==> PointAt(points, k).Some?
    ensures Opens(b, Top(points, b, a, i), WalkLines(b, TopEdges(points, a, i)))
    ensures WalkLines(b, TopEdges(points, a, i)) != [] <==> AnyVisible(points, b, a, i)
    decreases i
  {
    hide ClipX, EdgeLines;
    if a < i {
      TopIsWalk(points, b, a, i - 1);
      var before, edges := Top(points, b, a, i - 1), TopEdges(points, a, i);
      var walk := WalkLines(b, TopEdges(points, a, i - 1));
      assert edges[..|edges| - 1] == TopEdges(points, a, i - 1);
      var last := ClipX(b, edges[|edges| - 1]);
      if last.Some? {
        EdgeEnds(b, last.value);
        OpensOn(b, before, walk, last.value);
        assert Vis(points, b, i);
      } else {
        assert walk + [] == walk;
      }
    }
  }

  lemma OpensOn(b: Box, before: seq<Command>, walk: seq<Command>, s: Segment)
    requires Opens(b, before, walk)
    requires EdgeLines(b, s) != [] && EdgeLines(b, s)[0].LineTo? && Start(EdgeLines(b, s)).0 == s.x1
    ensures Opens(b, before + (if before == [] then OpenArea(b, s) else []) + EdgeLines(b, s), walk + EdgeLines(b, s))
  {
    hide EdgeLines;
    var lines := EdgeLines(b, s);
    if walk == [] {
      assert [] + lines == lines && [] + OpenArea(b, s) == OpenArea(b, s);
    } else {
      assert before + [] == before;
      assert (walk + lines)[0] == walk[0];
      assert [BeginPath, MoveTo(Start(walk).0, Bottom(b))] + walk + lines
          == [BeginPath, MoveTo(Start(walk).0, Bottom(b))] + (walk + lines);
    }
  }

  /** The commands of the bottom are those of its walk, and there are any exactly when there are any on top. */
  lemma {:induction false} BackIsWalk(points: AreaPoints, b: Box, hi: nat, i: nat)
    requires IsBox(b) && i <= hi && forall k :: i <= k <= hi ==> PointAt(points, k).Some?
    ensures Back(points, b, hi, i) == WalkLines(b, BottomEdges(points, hi, i))
    ensures WalkLines(b, BottomEdges(points, hi, i)) != [] <==> AnyVisible(points, b, i, hi)
    decreases hi - i
  {
    hide ClipX, EdgeLines;
    if i < hi {
      BackIsWalk(points, b, hi, i + 1);
      var edges := BottomEdges(points, hi, i);
      assert edges[..|edges| - 1] == BottomEdges(points, hi, i + 1);
      ClipXReversed(b, PointAt(points, i).value, PointAt(points, i + 1).value);
      var before := Back(points, b, hi, i + 1);
      var last := ClipX(b, edges[|edges| - 1]);
      if last.Some? {
        EdgeEnds(b, last.value);
        assert Vis(points, b, i + 1);
      } else {
        assert before + [] == before;
      }
    }
  }

  /** A run draws nothing when it misses the horizontal range. Otherwise it is one closed outline: from the
      bottom level straight to the top, along the clamped top, straight down, back along the clamped bottom,
      and straight to where it began; and top and bottom are drawn exactly in the horizontal range. */
  lemma RunDrawsOutline(points: AreaPoints, b: Box, a: nat, e: nat, p: (real, real))
    requires IsBox(b) && IsRun(points, a, e)
    ensures var commands := RunCommands(points, b, a, e);
            var top, bottom := WalkLines(b, TopEdges(points, a, e - 1)), WalkLines(b, BottomEdges(points, e - 1, a));
            && AllLines(top) && AllLines(bottom)
            && (OnPath(top, p) <==> OnWalk(b, TopEdges(points, a, e - 1), p))
            && (OnPath(bottom, p) <==> OnWalk(b, BottomEdges(points, e - 1, a), p))
            && (commands == [] <==> top == [])
            && (commands == [] <==> bottom == [])
            && (commands != [] ==>
                  && commands == [BeginPath, MoveTo(Start(top).0, Bottom(b))] + top + bottom + [Fill]
                  && Start(top).0 == End(bottom).0 == ClampX(b, PointAt(points, a).value.x)
                  && End(top).0 == Start(bottom).0 == ClampX(b, PointAt(points, e - 1).value.x))
  {
    hide WalkLines, OnPath, OnWalk, Top, Back, IsWalk, TopEdges, BottomEdges, ClampX, Vis;
    var tops, bottoms := TopEdges(points, a, e - 1), BottomEdges(points, e - 1, a);
    TopWalk(points, a, e, e - 1);
    BottomWalk(points, a, e, a);
    WalkDraws(b, tops, true, p);
    WalkDraws(b, bottoms, false, p);
    TopIsWalk(points, b, a, e - 1);
    BackIsWalk(points, b, e - 1, a);
    if WalkLines(b, tops) != [] {
      WalkEnds(b, tops, true);
      WalkEnds(b, bottoms, false);
    }
  }
}
