/** plotLineArea of flot (jquery.flot.js): one loop that sketches the top of each filled run of points
    forwards, turns round at the gap, sketches the bottom backwards, and resumes behind the gap.

    Indices count points rather than array slots. Commands are in data coordinates. */
module AreaSweep {
  import opened Clip
  import opened Options

  /** `top` is slot 1 of a point and `bottom` is slot 2; a gap is None. */
  datatype AreaPoint = AreaPoint(x: real, top: real, bottom: real)

  type AreaPoints = seq<Option<AreaPoint>>

  datatype Command = BeginPath | MoveTo(x: real, y: real) | LineTo(x: real, y: real) | Fill

  /** Reading the array outside its bounds gives undefined, which counts as a gap. */
  function PointAt(points: AreaPoints, i: int): Option<AreaPoint> {
    if 0 <= i < |points| then points[i] else None
  }

  function Joint(p: AreaPoint, q: AreaPoint, ypos: int): Segment {
    if ypos == 1 then Segment(p.x, p.top, q.x, q.top) else Segment(p.x, p.bottom, q.x, q.bottom)
  }

  function ClipX(b: Box, s: Segment): Option<Segment> {
    match ClipSide(XMin(b.xmin), s)
    case None => None
    case Some(r) => ClipSide(XMax(b.xmax), r)
  }

  // ---------------------------------------------------------------- one edge

  function ClipYMin(b: Box, s: Segment): Segment {
    if s.y1 <= s.y2 && s.y1 < b.ymin && s.y2 >= b.ymin then
      s.(x1 := Intercept(b.ymin, s.y1, s.y2, s.x1, s.x2), y1 := b.ymin)
    else if s.y2 <= s.y1 && s.y2 < b.ymin && s.y1 >= b.ymin then
      s.(x2 := Intercept(b.ymin, s.y1, s.y2, s.x1, s.x2), y2 := b.ymin)
    else s
  }

  function ClipYMax(b: Box, s: Segment): Segment {
    if s.y1 >= s.y2 && s.y1 > b.ymax && s.y2 <= b.ymax then
      s.(x1 := Intercept(b.ymax, s.y1, s.y2, s.x1, s.x2), y1 := b.ymax)
    else if s.y2 >= s.y1 && s.y2 > b.ymax && s.y1 <= b.ymax then
      s.(x2 := Intercept(b.ymax, s.y1, s.y2, s.x1, s.x2), y2 := b.ymax)
    else s
  }

  /** The lineTo commands for an edge that is already clipped in x. */
  function EdgeLines(b: Box, s: Segment): (lines: seq<Command>)
    ensures lines != []
  {
    if s.y1 >= b.ymax && s.y2 >= b.ymax then
      [LineTo(s.x1, b.ymax), LineTo(s.x2, b.ymax)]
    else if s.y1 <= b.ymin && s.y2 <= b.ymin then
      [LineTo(s.x1, b.ymin), LineTo(s.x2, b.ymin)]
    else
      var r := ClipYMax(b, ClipYMin(b, s));
      (if r.x1 != s.x1 then [LineTo(s.x1, r.y1)] else [])
      + [LineTo(r.x1, r.y1), LineTo(r.x2, r.y2)]
      + (if r.x2 != s.x2 then [LineTo(r.x2, r.y2), LineTo(s.x2, r.y2)] else [])
  }

  // ---------------------------------------------------------------- what the sweep should draw

  /** The joint between points k - 1 and k exists and is not clipped away in x. */
  predicate Vis(points: AreaPoints, b: Box, k: int) {
    && PointAt(points, k - 1).Some? && PointAt(points, k).Some?
    && ClipX(b, Joint(PointAt(points, k - 1).value, PointAt(points, k).value, 1)).Some?
  }

  function Bottom(b: Box): real {
    var low := if 0.0 <= b.ymin then b.ymin else 0.0;
    if low <= b.ymax then low else b.ymax
  }

  /** The area rises from the level in the vertical range that is nearest to zero. */
  lemma BottomIsNearestZero(b: Box, y: real)
    requires b.ymin <= y <= b.ymax
    ensures b.ymin <= Bottom(b) <= b.ymax
    ensures (0.0 <= y ==> Bottom(b) <= y) && (y <= 0.0 ==> y <= Bottom(b))
    ensures (0.0 < Bottom(b) ==> 0.0 < y) && (Bottom(b) < 0.0 ==> y < 0.0)
  {
  }

  /** The first visible edge opens the area at its clipped start. */
  function OpenArea(b: Box, s: Segment): seq<Command> {
    [BeginPath, MoveTo(s.x1, Bottom(b))]
  }

  /** Forward over the edges a + 1 to i: the top of the area, opened by the first visible edge. */
  ghost function Top(points: AreaPoints, b: Box, a: int, i: int): seq<Command>
    decreases i - a
  {
    if i <= a then []
    else
      var before := Top(points, b, a, i - 1);
      if !Vis(points, b, i) then before
      else
        var s := ClipX(b, Joint(PointAt(points, i - 1).value, PointAt(points, i).value, 1)).value;
        before + (if before == [] then OpenArea(b, s) else []) + EdgeLines(b, s)
  }

  /** Backward over the edges hi to i + 1: the bottom of the area. */
  ghost function Back(points: AreaPoints, b: Box, hi: int, i: int): seq<Command>
    decreases hi - i
  {
    if hi <= i then []
    else
      var before := Back(points, b, hi, i + 1);
      if !Vis(points, b, i + 1) then before
      else
        ClipXReversed(b, PointAt(points, i).value, PointAt(points, i + 1).value);
        before + EdgeLines(b, ClipX(b, Joint(PointAt(points, i + 1).value, PointAt(points, i).value, 2)).value)
  }

  /** First gap at or after i. */
  function RunEnd(points: AreaPoints, i: nat): (e: nat)
    ensures i <= e && PointAt(points, e).None?
    ensures forall k :: i <= k < e ==> PointAt(points, k).Some?
    ensures i < |points| ==> e <= |points| && (e == |points| || points[e].None?)
    ensures forall k :: i <= k < e ==> k < |points| && points[k].Some?
    decreases |points| - i
  {
    if PointAt(points, i).None? then i else RunEnd(points, i + 1)
  }

  /** A run of points from a up to the gap e: top forwards, bottom backwards, one fill; nothing when no
      edge of the run is visible. */
  ghost function RunCommands(points: AreaPoints, b: Box, a: int, e: int): seq<Command> {
    var top := Top(points, b, a, e - 1);
    if top == [] then [] else top + Back(points, b, e - 1, a) + [Fill]
  }

  /** All runs from s on. */
  ghost function Runs(points: AreaPoints, b: Box, s: nat): seq<Command>
    decreases |points| - s
  {
    if |points| <= s then []
    else if points[s].None? then Runs(points, b, s + 1)
    else
      var e := RunEnd(points, s);
      RunCommands(points, b, s, e) + Runs(points, b, e + 1)
  }

  /** Whether clipping drops an edge depends only on the abscissae of its ends, not on direction. */
  lemma ClipXReversed(b: Box, p: AreaPoint, q: AreaPoint)
    ensures ClipX(b, Joint(p, q, 1)).Some? <==> ClipX(b, Joint(q, p, 2)).Some?
  {
    hide Intercept;
  }

  // ---------------------------------------------------------------- the sweep

  /** Nothing opened since the cursor a: the commands so far are those of all runs before a, and the run
      that starts at a (if any) has shown no visible edge up to i. */
  ghost predicate Scanning(points: AreaPoints, b: Box, total: seq<Command>, commands: seq<Command>,
                           i: nat, start: nat, a: nat)
  {
    && start <= i && start <= a <= i + 1
    && total == commands + Runs(points, b, a)
    && (forall k :: a <= k <= i ==> PointAt(points, k).Some?)
    && (a == i + 1 ==> PointAt(points, i).None?)
    && (forall k {:trigger Vis(points, b, k)} :: start < k <= i ==> !Vis(points, b, k))
  }

  /** The area of the run that starts at a is open, and its top is drawn up to i. */
  ghost predicate Sketching(points: AreaPoints, b: Box, total: seq<Command>, commands: seq<Command>,
                            i: nat, start: nat, a: nat, before: seq<Command>)
  {
    && start <= a <= i
    && total == before + Runs(points, b, a)
    && (forall k :: a <= k <= i ==> PointAt(points, k).Some?)
    && (forall k {:trigger Vis(points, b, k)} :: start < k <= a ==> !Vis(points, b, k))
    && Top(points, b, a, i) != []
    && commands == before + Top(points, b, a, i)
  }

  /** The top of the run from a to the gap e is complete, and its bottom is drawn down to i. */
  ghost predicate Returning(points: AreaPoints, b: Box, total: seq<Command>, commands: seq<Command>,
                            i: int, start: nat, e: nat, a: nat, before: seq<Command>)
  {
    && start <= a < e && start <= i <= e
    && total == before + Runs(points, b, a)
    && (forall k :: a <= k < e ==> PointAt(points, k).Some?)
    && PointAt(points, e).None?
    && (forall k {:trigger Vis(points, b, k)} :: start < k <= a ==> !Vis(points, b, k))
    && Top(points, b, a, e - 1) != []
    && commands == before + Top(points, b, a, e - 1) + Back(points, b, e - 1, i)
  }

  lemma {:induction false} RunEndIs(points: AreaPoints, a: nat, e: nat)
    requires a <= e && PointAt(points, e).None? && forall k :: a <= k < e ==> PointAt(points, k).Some?
    ensures RunEnd(points, a) == e
    decreases e - a
  {
  }

  lemma {:induction false} NoVisibleNoTop(points: AreaPoints, b: Box, a: int, i: int)
    requires forall k {:trigger Vis(points, b, k)} :: a < k <= i ==> !Vis(points, b, k)
    ensures Top(points, b, a, i) == []
    decreases i - a
  {
    if a < i {
      NoVisibleNoTop(points, b, a, i - 1);
    }
  }

  lemma {:induction false} NoVisibleNoBack(points: AreaPoints, b: Box, hi: int, a: int, i: int)
    requires i <= a <= hi
    requires forall k {:trigger Vis(points, b, k)} :: i < k <= a ==> !Vis(points, b, k)
    ensures Back(points, b, hi, i) == Back(points, b, hi, a)
    decreases a - i
  {
    if i < a {
      NoVisibleNoBack(points, b, hi, a, i + 1);
    }
  }

  /** A run without visible edges contributes nothing, and neither does a gap. */
  lemma SkipRun(points: AreaPoints, b: Box, a: nat, i: nat)
    requires a <= i && PointAt(points, i).None? && forall k :: a <= k < i ==> PointAt(points, k).Some?
    requires forall k {:trigger Vis(points, b, k)} :: a < k < i ==> !Vis(points, b, k)
    ensures Runs(points, b, a) == Runs(points, b, i + 1)
  {
    if a < i {
      RunEndIs(points, a, i);
      NoVisibleNoTop(points, b, a, i - 1);
    }
  }

  /** Forward over a joint that is not drawn, closed area. */
  lemma ScanOn(points: AreaPoints, b: Box, total: seq<Command>, commands: seq<Command>, i: nat, start: nat, a: nat)
    returns (a': nat)
    requires Scanning(points, b, total, commands, i, start, a) && !Vis(points, b, i + 1)
    ensures Scanning(points, b, total, commands, i + 1, start, a')
  {
    hide Vis, Runs;
    if PointAt(points, i + 1).None? {
      SkipRun(points, b, a, i + 1);
      a' := i + 2;
    } else {
      a' := a;
    }
  }

  lemma ScanStart(points: AreaPoints, b: Box, total: seq<Command>, commands: seq<Command>, i: nat)
    returns (a: nat)
    requires total == commands + Runs(points, b, i)
    ensures Scanning(points, b, total, commands, i, i, a)
  {
    hide Vis;
    if PointAt(points, i).None? {
      SkipRun(points, b, i, i);
      a := i + 1;
    } else {
      a := i;
    }
  }

  lemma OpenAt(points: AreaPoints, b: Box, total: seq<Command>, commands: seq<Command>, i: nat, start: nat, a: nat,
               s: Segment)
    requires Scanning(points, b, total, commands, i, start, a) && Vis(points, b, i + 1)
    requires s == ClipX(b, Joint(PointAt(points, i).value, PointAt(points, i + 1).value, 1)).value
    ensures Sketching(points, b, total, commands + OpenArea(b, s) + EdgeLines(b, s), i + 1, start, a, commands)
  {
    hide EdgeLines, OpenArea, Runs;
    assert a <= i;
    NoVisibleNoTop(points, b, a, i);
    assert Top(points, b, a, i + 1) == [] + OpenArea(b, s) + EdgeLines(b, s);
    assert commands + OpenArea(b, s) + EdgeLines(b, s) == commands + ([] + OpenArea(b, s) + EdgeLines(b, s));
  }

  lemma SketchOn(points: AreaPoints, b: Box, total: seq<Command>, commands: seq<Command>, i: nat, start: nat, a: nat,
                 before: seq<Command>)
    requires Sketching(points, b, total, commands, i, start, a, before) && PointAt(points, i + 1).Some?
    ensures !Vis(points, b, i + 1) ==> Sketching(points, b, total, commands, i + 1, start, a, before)
    ensures Vis(points, b, i + 1) ==>
              var s := ClipX(b, Joint(PointAt(points, i).value, PointAt(points, i + 1).value, 1)).value;
              Sketching(points, b, total, commands + EdgeLines(b, s), i + 1, start, a, before)
  {
    hide EdgeLines, OpenArea, Runs, ClipX;
    if Vis(points, b, i + 1) {
      var s := ClipX(b, Joint(PointAt(points, i).value, PointAt(points, i + 1).value, 1)).value;
      var t := Top(points, b, a, i);
      assert Top(points, b, a, i + 1) == t + EdgeLines(b, s);
      assert commands + EdgeLines(b, s) == before + (t + EdgeLines(b, s));
    }
  }

  lemma TurnRound(points: AreaPoints, b: Box, total: seq<Command>, commands: seq<Command>, i: nat, start: nat, a: nat,
                  before: seq<Command>)
    requires Sketching(points, b, total, commands, i, start, a, before) && PointAt(points, i + 1).None?
    ensures Returning(points, b, total, commands, i + 1, start, i + 1, a, before) && start <= i
  {
    hide Vis, Runs;
  }

  lemma ReturnOn(points: AreaPoints, b: Box, total: seq<Command>, commands: seq<Command>, i: int, start: nat, e: nat,
                 a: nat, before: seq<Command>)
    requires Returning(points, b, total, commands, i, start, e, a, before) && start < i
    ensures !Vis(points, b, i) ==> Returning(points, b, total, commands, i - 1, start, e, a, before)
    ensures Vis(points, b, i) ==>
              && PointAt(points, i).Some? && PointAt(points, i - 1).Some?
              && var r := ClipX(b, Joint(PointAt(points, i).value, PointAt(points, i - 1).value, 2));
                 r.Some? && Returning(points, b, total, commands + EdgeLines(b, r.value), i - 1, start, e, a, before)
  {
    hide EdgeLines, OpenArea, Runs, ClipX, Top;
    if Vis(points, b, i) {
      ClipXReversed(b, PointAt(points, i - 1).value, PointAt(points, i).value);
      var lines := EdgeLines(b, ClipX(b, Joint(PointAt(points, i).value, PointAt(points, i - 1).value, 2)).value);
      var t, u := Top(points, b, a, e - 1), Back(points, b, e - 1, i);
      assert i <= e - 1;
      assert Back(points, b, e - 1, i - 1) == u + lines;
      assert before + t + u + lines == before + t + (u + lines);
    }
  }

  lemma ReturnDone(points: AreaPoints, b: Box, total: seq<Command>, commands: seq<Command>, start: nat, e: nat,
                   a: nat, before: seq<Command>)
    requires Returning(points, b, total, commands, start, start, e, a, before)
    ensures total == commands + [Fill] + Runs(points, b, e + 1)
  {
    hide Vis, Top;
    RunEndIs(points, a, e);
    NoVisibleNoBack(points, b, e - 1, a, start);
    var t, u := Top(points, b, a, e - 1), Back(points, b, e - 1, a);
    assert Runs(points, b, a) == t + u + [Fill] + Runs(points, b, e + 1);
  }

  /** The loop of the source. `forward` is the sign of its step, `ypos` the slot it reads. */
  method PlotLineArea(points: AreaPoints, b: Box) returns (commands: seq<Command>)
    ensures commands == Runs(points, b, 0)
  {
    hide Scanning, Sketching, Returning, Runs, EdgeLines, ClipX, ClipSide, OpenArea, Bottom;
    commands := [];
    var n := |points|;
    var i: int := 0;
    var forward, areaOpen, ypos := true, false, 1;
    var segmentStart, segmentEnd := 0, 0;
    ghost var total := Runs(points, b, 0);
    ghost var before: seq<Command> := [];
    ghost var a := ScanStart(points, b, total, commands, 0);
    while true
      invariant 0 <= segmentStart <= n + 1 && 0 <= segmentEnd <= n
      invariant forward ==> 0 <= i <= n + 2 && ypos == 1
      invariant forward && !areaOpen ==> Scanning(points, b, total, commands, i, segmentStart, a)
      invariant forward && areaOpen ==> i < n && Sketching(points, b, total, commands, i, segmentStart, a, before)
      invariant !forward ==> areaOpen && ypos == 2 && segmentStart <= i <= segmentEnd
                             && Returning(points, b, total, commands, i, segmentStart, segmentEnd, a, before)
      decreases n + 3 - (if forward then i else segmentEnd), if forward then 0 else i + 1
    {
      if forward && i > n + 1 {
        break;
      }
      i := if forward then i + 1 else i - 1;
      var prev := if forward then PointAt(points, i - 1) else PointAt(points, i + 1);
      var next := PointAt(points, i);

      if areaOpen {
        if forward && prev != None && next == None {
          TurnRound(points, b, total, commands, i - 1, segmentStart, a, before);
          segmentEnd := i;
          forward := false;
          ypos := 2;
          continue;
        }
        if !forward && i == segmentStart - 1 {
          ReturnDone(points, b, total, commands, segmentStart, segmentEnd, a, before);
          commands := commands + [Fill];
          areaOpen := false;
          forward := true;
          ypos := 1;
          segmentStart := segmentEnd + 1;
          i := segmentStart;
          a := ScanStart(points, b, total, commands, i);
          continue;
        }
      }

      if prev == None || next == None {
        if forward {
          SketchingHere(points, b, total, commands, i - 1, segmentStart, a, before, areaOpen);
          a := ScanOn(points, b, total, commands, i - 1, segmentStart, a);
        } else {
          ReturnOn(points, b, total, commands, i + 1, segmentStart, segmentEnd, a, before);
        }
        continue;
      }
      var clipped := ClipX(b, Joint(prev.value, next.value, ypos));
      if forward {
        if areaOpen {
          SketchOn(points, b, total, commands, i - 1, segmentStart, a, before);
        } else if clipped == None {
          a := ScanOn(points, b, total, commands, i - 1, segmentStart, a);
        }
      } else {
        ClipXReversed(b, next.value, prev.value);
        ReturnOn(points, b, total, commands, i + 1, segmentStart, segmentEnd, a, before);
      }
      if clipped == None {
        continue;
      }
      if !areaOpen {
        OpenAt(points, b, total, commands, i - 1, segmentStart, a, clipped.value);
        before := commands;
        commands := commands + OpenArea(b, clipped.value);
        areaOpen := true;
      }
      commands := commands + EdgeLines(b, clipped.value);
    }
    SweepDone(points, b, total, commands, i, segmentStart, a);
  }

  /** While the top is sketched the last point is not a gap, so a gap ahead is the turning point. */
  lemma SketchingHere(points: AreaPoints, b: Box, total: seq<Command>, commands: seq<Command>, i: nat, start: nat,
                      a: nat, before: seq<Command>, open: bool)
    requires open ==> Sketching(points, b, total, commands, i, start, a, before)
    ensures open ==> PointAt(points, i).Some?
  {
  }

  lemma SweepDone(points: AreaPoints, b: Box, total: seq<Command>, commands: seq<Command>, i: nat, start: nat, a: nat)
    requires Scanning(points, b, total, commands, i, start, a) && |points| < i
    ensures commands == total
  {
    assert PointAt(points, i).None?;
    assert a == i + 1;
  }

  // ---------------------------------------------------------------- what the drawing amounts to

  /** Whether an area is open after the commands; None when the commands do not fit together: a beginPath
      inside an open area, or a fill, a moveTo or a lineTo outside one. */
  ghost function Open(commands: seq<Command>): Option<bool> {
    if commands == [] then Some(false)
    else
      var before := Open(commands[..|commands| - 1]);
      match commands[|commands| - 1]
      case BeginPath => if before == Some(false) then Some(true) else None
      case Fill => if before == Some(true) then Some(false) else None
      case _ => if before == Some(true) then before else None
  }

  lemma {:induction false} OpenAppends(c: seq<Command>, d: seq<Command>)
    requires Open(c) == Some(false)
    ensures Open(c + d) == Open(d)
  {
    if d == [] {
      assert c + d == c;
    } else {
      OpenAppends(c, d[..|d| - 1]);
      assert (c + d)[..|c + d| - 1] == c + d[..|d| - 1];
    }
  }

  lemma {:induction false} LinesKeepOpen(c: seq<Command>, d: seq<Command>)
    requires Open(c) == Some(true) && forall k :: 0 <= k < |d| ==> d[k].LineTo? || d[k].MoveTo?
    ensures Open(c + d) == Some(true)
  {
    if d == [] {
      assert c + d == c;
    } else {
      LinesKeepOpen(c, d[..|d| - 1]);
      assert (c + d)[..|c + d| - 1] == c + d[..|d| - 1];
    }
  }

  lemma EdgeLinesAreLines(b: Box, s: Segment)
    ensures forall k :: 0 <= k < |EdgeLines(b, s)| ==> EdgeLines(b, s)[k].LineTo?
  {
  }

  lemma {:induction false} TopOpens(points: AreaPoints, b: Box, a: int, i: int)
    ensures Top(points, b, a, i) != [] ==> Open(Top(points, b, a, i)) == Some(true)
    decreases i - a
  {
    hide EdgeLines;
    if a < i {
      TopOpens(points, b, a, i - 1);
      if Vis(points, b, i) {
        var s := ClipX(b, Joint(PointAt(points, i - 1).value, PointAt(points, i).value, 1)).value;
        var before := Top(points, b, a, i - 1);
        EdgeLinesAreLines(b, s);
        if before == [] {
          var move := [MoveTo(s.x1, Bottom(b))];
          assert Open([BeginPath]) == Some(true) by { assert [BeginPath][..0] == []; }
          assert OpenArea(b, s) == [BeginPath] + move;
          LinesKeepOpen([BeginPath], move);
          LinesKeepOpen(OpenArea(b, s), EdgeLines(b, s));
          assert Top(points, b, a, i) == OpenArea(b, s) + EdgeLines(b, s);
        } else {
          LinesKeepOpen(before, EdgeLines(b, s));
          assert Top(points, b, a, i) == before + EdgeLines(b, s);
        }
      }
    }
  }

  lemma {:induction false} BackIsLines(points: AreaPoints, b: Box, hi: int, i: int)
    ensures forall k :: 0 <= k < |Back(points, b, hi, i)| ==> Back(points, b, hi, i)[k].LineTo?
    decreases hi - i
  {
    hide EdgeLines;
    if i < hi {
      BackIsLines(points, b, hi, i + 1);
      if Vis(points, b, i + 1) {
        ClipXReversed(b, PointAt(points, i).value, PointAt(points, i + 1).value);
        EdgeLinesAreLines(b, ClipX(b, Joint(PointAt(points, i + 1).value, PointAt(points, i).value, 2)).value);
      }
    }
  }

  /** Every beginPath of the sweep is followed by exactly one fill before the next beginPath, and nothing
      is drawn outside such a pair. */
  lemma {:induction false} SweepIsBracketed(points: AreaPoints, b: Box, s: nat)
    ensures Open(Runs(points, b, s)) == Some(false)
    decreases |points| - s
  {
    hide Top, Back;
    if s < |points| {
      if points[s].None? {
        SweepIsBracketed(points, b, s + 1);
      } else {
        var e := RunEnd(points, s);
        SweepIsBracketed(points, b, e + 1);
        RunIsBracketed(points, b, s, e);
        OpenAppends(RunCommands(points, b, s, e), Runs(points, b, e + 1));
      }
    }
  }

  lemma RunIsBracketed(points: AreaPoints, b: Box, a: int, e: int)
    ensures Open(RunCommands(points, b, a, e)) == Some(false)
  {
    hide Top, Back;
    var top, back := Top(points, b, a, e - 1), Back(points, b, e - 1, a);
    TopOpens(points, b, a, e - 1);
    BackIsLines(points, b, e - 1, a);
    if top != [] {
      LinesKeepOpen(top, back);
      assert (top + back + [Fill])[..|top + back|] == top + back;
    }
  }
}
