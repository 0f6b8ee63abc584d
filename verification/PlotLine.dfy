/** plotLine in drawSeriesLines of flot (jquery.flot.js): the path commands for a line series. */
module PlotLine {
  import opened Clip
  import opened Options

  /** A point of the series; None is a gap. */
  type LinePoints = seq<Option<(real, real)>>

  datatype Command = MoveTo(x: real, y: real) | LineTo(x: real, y: real)

  /** The line segments a canvas draws for the commands, with the pen after them. */
  ghost function Drawn(commands: seq<Command>): (r: (seq<Segment>, Option<(real, real)>))
  {
    if commands == [] then ([], None)
    else
      var (segments, pen) := Drawn(commands[..|commands| - 1]);
      match commands[|commands| - 1]
      case MoveTo(x, y) => (segments, Some((x, y)))
      case LineTo(x, y) =>
        (if pen.Some? then segments + [Segment(pen.value.0, pen.value.1, x, y)] else segments, Some((x, y)))
  }

  /** The visible parts of the first n joints of the series, in order. */
  ghost function Visible(points: LinePoints, b: Box, n: nat): seq<Segment>
    requires n <= |points|
  {
    if n < 2 then []
    else
      var before := Visible(points, b, n - 1);
      if points[n - 2].None? || points[n - 1].None? then before
      else
        var p, q := points[n - 2].value, points[n - 1].value;
        match ClipAll(Sides(b), Segment(p.0, p.1, q.0, q.1))
        case None => before
        case Some(r) => before + [r]
  }

  function Joint(p: (real, real), q: (real, real)): Segment {
    Segment(p.0, p.1, q.0, q.1)
  }

  lemma DrawMove(commands: seq<Command>, x: real, y: real)
    ensures Drawn(commands + [MoveTo(x, y)]) == (Drawn(commands).0, Some((x, y)))
  {
  }

  lemma DrawLine(commands: seq<Command>, r: Segment)
    requires Drawn(commands).1 == Some((r.x1, r.y1))
    ensures Drawn(commands + [LineTo(r.x2, r.y2)]) == (Drawn(commands).0 + [r], Some((r.x2, r.y2)))
  {
  }

  /** The source writes the four clipping blocks one after the other. */
  lemma FourBlocks(b: Box, s: Segment)
    ensures ClipAll(Sides(b), s) ==
              match ClipSide(YMin(b.ymin), s)
              case None => None
              case Some(s1) =>
                match ClipSide(YMax(b.ymax), s1)
                case None => None
                case Some(s2) =>
                  match ClipSide(XMin(b.xmin), s2)
                  case None => None
                  case Some(s3) => ClipSide(XMax(b.xmax), s3)
  {
    hide ClipSide;
    var hs := Sides(b);
    assert hs[..3] == [YMin(b.ymin), YMax(b.ymax), XMin(b.xmin)];
    assert hs[..3][..2] == [YMin(b.ymin), YMax(b.ymax)];
    assert hs[..3][..2][..1] == [YMin(b.ymin)];
    assert hs[..3][..2][..1][..0] == [];
    OneBlock(hs, s);
    OneBlock(hs[..3], s);
    OneBlock(hs[..3][..2], s);
    OneBlock(hs[..3][..2][..1], s);
  }

  lemma OneBlock(hs: seq<Half>, s: Segment)
    requires hs != []
    ensures ClipAll(hs, s) ==
              match ClipAll(hs[..|hs| - 1], s)
              case None => None
              case Some(r) => ClipSide(hs[|hs| - 1], r)
  {
  }

  /** What the path draws is exactly the visible parts of the series, although a moveTo is left out
      whenever the pen is already there. */
  method PlotLine(points: LinePoints, b: Box) returns (commands: seq<Command>)
    ensures Drawn(commands).0 == Visible(points, b, |points|)
  {
    hide ClipSide, ClipAll, Sides, Drawn;
    commands := [];
    var prev: Option<(real, real)> := None;
    assert Drawn(commands) == ([], None) by { DrawNothing(); }
    var i := 1;
    while i < |points|
      invariant 1 <= i && (i <= |points| || (|points| == 0 && i == 1))
      invariant Drawn(commands) == (Visible(points, b, if i <= |points| then i else 0), prev)
      decreases |points| - i
    {
      var n := i;
      i := i + 1;
      if points[n - 1] == None || points[n] == None {
        continue;
      }
      var s := Joint(points[n - 1].value, points[n].value);
      FourBlocks(b, s);
      var r := ClipSide(YMin(b.ymin), s);
      if r == None {
        continue;
      }
      r := ClipSide(YMax(b.ymax), r.value);
      if r == None {
        continue;
      }
      r := ClipSide(XMin(b.xmin), r.value);
      if r == None {
        continue;
      }
      r := ClipSide(XMax(b.xmax), r.value);
      if r == None {
        continue;
      }
      var c := r.value;
      if prev != Some((c.x1, c.y1)) {
        DrawMove(commands, c.x1, c.y1);
        commands := commands + [MoveTo(c.x1, c.y1)];
      }
      prev := Some((c.x2, c.y2));
      DrawLine(commands, c);
      commands := commands + [LineTo(c.x2, c.y2)];
    }
  }

  lemma DrawNothing()
    ensures Drawn([]) == ([], None)
  {
  }
}
