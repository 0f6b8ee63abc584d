/** The stack plugin of flot (jquery.flot.stack.js). */
module Stack {
  import opened BarMerge
  import opened GapMerge
  import opened Options
  import opened Overlay
  import opened PiecewiseLinear
  import opened SeriesPoints
  import opened SeriesValue

  // ---------------------------------------------------------------- one series on another

  /** The point the plugin writes for an emitted one. An inserted point is always pushed key first, so in
      horizontal mode, where the key is the second slot, its two coordinates come out exchanged. */
  function StackedPoint(m: Merged, withbottom: bool, horizontal: bool): Point {
    var base := if withbottom then m.base + m.q else m.base;
    if horizontal && m.inserted then Point(m.p + m.q, m.x, base) else Point(m.x, m.p + m.q, base)
  }

  function StackedPoints(tr: Trace, withbottom: bool, horizontal: bool): Points {
    seq(|tr|, k requires 0 <= k < |tr| =>
      if tr[k].None? then None else Some(StackedPoint(tr[k].value, withbottom, horizontal)))
  }

  /** A bar on its bottom. */
  function RaisedBar(b: Bar, withbottom: bool): Point {
    var p, below := b.point, if b.bottom.Some? then b.bottom.value else 0.0;
    Point(p.key, p.acc + below, if withbottom then p.base + below else p.base)
  }

  function RaisedBars(tr: BarTrace, withbottom: bool): Points {
    seq(|tr|, k requires 0 <= k < |tr| => if tr[k].None? then None else Some(RaisedBar(tr[k].value, withbottom)))
  }

  /** What vertical stacking of line series with any gaps means: the sum is drawn exactly where both series
      are, with a point for every point of either there; bottoms are raised by the other series, which is
      what they draw if they were zero. */
  ghost predicate StacksTo(points: Points, other: Points, withbottom: bool, newpoints: Points) {
    && KeysIncrease(newpoints)
    && (forall x :: At(newpoints, x) == SumAt(points, other, x))
    && (forall x :: HasKnot(newpoints, x) <==> Both(points, other, x) && (HasKnot(points, x) || HasKnot(other, x)))
    && (forall k {:trigger newpoints[k]} :: 0 <= k < |newpoints| && newpoints[k].Some? ==>
         exists a ::
           0 <= a < |points| && points[a].Some? && BaseFits(points[a].value, other, withbottom, newpoints[k].value))
    && (withbottom && BasesAreZero(points) ==>
          forall x :: At(BottomsOf(newpoints), x) == if Both(points, other, x) then At(other, x) else None)
  }

  ghost predicate BaseFits(p: Point, other: Points, withbottom: bool, out: Point) {
    At(other, out.key).Some? && out.base == if withbottom then p.base + At(other, out.key).value else p.base
  }

  /** The point written for a sample of two gap-free series. */
  ghost predicate StackedAt(points: Points, withbottom: bool, horizontal: bool, x: real, p: real, q: real,
                            out: Option<Point>)
    requires GapFree(points)
  {
    && out.Some?
    && (if horizontal && !IsKnot(Knots(points), x) then out.value.key == p + q && out.value.acc == x
        else out.value.key == x && out.value.acc == p + q)
    && exists a :: 0 <= a < |points|
         && out.value.base == (if withbottom then points[a].value.base + q else points[a].value.base)
  }

  ghost predicate Stacked(points: Points, withbottom: bool, horizontal: bool,
                          xs: seq<real>, ps: seq<real>, qs: seq<real>, newpoints: Points)
    requires GapFree(points)
  {
    && |newpoints| == |xs| == |ps| == |qs|
    && forall k {:trigger newpoints[k]} :: 0 <= k < |xs| ==>
         StackedAt(points, withbottom, horizontal, xs[k], ps[k], qs[k], newpoints[k])
  }

  // ---------------------------------------------------------------- what is written for lines

  lemma SortedOut(tr: Trace, withbottom: bool)
    requires KeysIncrease(OwnOf(tr))
    ensures KeysIncrease(StackedPoints(tr, withbottom, false))
  {
    var out := StackedPoints(tr, withbottom, false);
    forall a, b | 0 <= a < b < |tr| && out[a].Some? && out[b].Some?
      ensures out[a].value.key < out[b].value.key
    {
      assert OwnOf(tr)[a].value.key < OwnOf(tr)[b].value.key;
    }
  }

  lemma SumHere(points: Points, other: Points, tr: Trace, withbottom: bool, x: real)
    requires AgreesAt(points, other, tr, x)
    ensures var out := StackedPoints(tr, withbottom, false);
            && At(out, x) == SumAt(points, other, x)
            && (HasKnot(out, x) <==> Both(points, other, x) && (HasKnot(points, x) || HasKnot(other, x)))
  {
    hide At, HasKnot;
    var out := StackedPoints(tr, withbottom, false);
    AtSame(out, SumOf(tr), x);
    SumDraws(tr, x);
    SameKnots(out, OwnOf(tr), x);
    hide StackedPoints, SumOf, OwnOf, OtherOf;
  }

  lemma BaseHere(points: Points, other: Points, m: Merged, withbottom: bool)
    requires Right(points, other, m)
    ensures exists a :: 0 <= a < |points| && points[a].Some?
                        && BaseFits(points[a].value, other, withbottom, StackedPoint(m, withbottom, false))
  {
    hide At, HasKnot;
    var a :| 0 <= a < |points| && points[a].Some? && points[a].value.base == m.base;
    assert BaseFits(points[a].value, other, withbottom, StackedPoint(m, withbottom, false));
  }

  /** Bottoms that were zero draw the other series. */
  lemma BottomsAreOther(points: Points, other: Points, tr: Trace)
    requires SamplesBoth(points, other, tr) && BasesAreZero(points)
    ensures forall x ::
              At(BottomsOf(StackedPoints(tr, true, false)), x) == if Both(points, other, x) then At(other, x) else None
  {
    hide At, HasKnot, KeysIncrease;
    var bottoms := BottomsOf(StackedPoints(tr, true, false));
    forall k {:trigger bottoms[k]} | 0 <= k < |tr| && tr[k].Some?
      ensures bottoms[k].value.acc == tr[k].value.q
    {
      assert Right(points, other, tr[k].value);
    }
    forall x
      ensures At(bottoms, x) == if Both(points, other, x) then At(other, x) else None
    {
      AtSame(bottoms, OtherOf(tr), x);
      assert AgreesAt(points, other, tr, x);
    }
  }

  lemma VerticalSum(points: Points, other: Points, tr: Trace, withbottom: bool)
    requires SamplesBoth(points, other, tr)
    ensures StacksTo(points, other, withbottom, StackedPoints(tr, withbottom, false))
  {
    hide At, HasKnot, AgreesAt, Right, SumAt, Both, KeysIncrease, BaseFits, StackedPoint, OwnOf, BasesAreZero,
      BottomsOf;
    var out := StackedPoints(tr, withbottom, false);
    SortedOut(tr, withbottom);
    if withbottom && BasesAreZero(points) {
      BottomsAreOther(points, other, tr);
    }
    forall x
      ensures At(out, x) == SumAt(points, other, x)
      ensures HasKnot(out, x) <==> Both(points, other, x) && (HasKnot(points, x) || HasKnot(other, x))
    {
      SumHere(points, other, tr, withbottom, x);
    }
    forall k {:trigger out[k]} | 0 <= k < |out| && out[k].Some?
      ensures exists a ::
                0 <= a < |points| && points[a].Some? && BaseFits(points[a].value, other, withbottom, out[k].value)
    {
      BaseHere(points, other, tr[k].value, withbottom);
    }
  }

  lemma GapFreeStacked(points: Points, other: Points, tr: Trace, withbottom: bool, horizontal: bool)
    requires GapFree(points) && NoGap(tr) && AllRight(points, other, tr)
    ensures Stacked(points, withbottom, horizontal, Xs(tr), Ps(tr), Qs(tr), StackedPoints(tr, withbottom, horizontal))
  {
    var out := StackedPoints(tr, withbottom, horizontal);
    forall k {:trigger out[k]} | 0 <= k < |tr|
      ensures StackedAt(points, withbottom, horizontal, Xs(tr)[k], Ps(tr)[k], Qs(tr)[k], out[k])
    {
      hide At;
      assert Right(points, other, tr[k].value);
      KnotIsKnot(points, tr[k].value.x);
      hide HasKnot, IsKnot;
    }
  }

  lemma LinesMean(points: Points, other: Points, withbottom: bool, horizontal: bool)
    requires Separated(points) && Separated(other)
    ensures !horizontal && KeysIncrease(points) && KeysIncrease(other) ==>
              StacksTo(points, other, withbottom,
                       StackedPoints(Emitted(points, other, 0, 0, true), withbottom, horizontal))
    ensures Clean(points) && Clean(other) ==>
              var tr := Emitted(points, other, 0, 0, true);
              && IsOverlay(Knots(points), Knots(other), Xs(tr), Ps(tr), Qs(tr))
              && Stacked(points, withbottom, horizontal, Xs(tr), Ps(tr), Qs(tr),
                         StackedPoints(tr, withbottom, horizontal))
  {
    hide Emitted, SamplesBoth, StacksTo, IsOverlay, Stacked, StackedPoints, KeysIncrease;
    var tr := Emitted(points, other, 0, 0, true);
    if Clean(points) && Clean(other) {
      MergeIsOverlay(points, other);
    }
    if KeysIncrease(points) && KeysIncrease(other) {
      MergeSamplesBoth(points, other);
      BothAllRight(points, other, tr);
      VerticalSum(points, other, tr, withbottom);
      if Clean(points) && Clean(other) {
        GapFreeStacked(points, other, tr, withbottom, horizontal);
      }
    }
  }

  // ---------------------------------------------------------------- what is written for bars

  ghost function AllRaised(bars: seq<Bar>, withbottom: bool): seq<Point> {
    seq(|bars|, k requires 0 <= k < |bars| => RaisedBar(bars[k], withbottom))
  }

  lemma {:induction false} RaisedNonGaps(tr: BarTrace, withbottom: bool)
    ensures NonGaps(RaisedBars(tr, withbottom)) == AllRaised(NonGaps(tr), withbottom)
  {
    hide RaisedBar, RaisedBars, NonGaps;
    if tr != [] {
      var rest := tr[1..];
      assert tr == [tr[0]] + rest;
      RaisedNonGaps(rest, withbottom);
      RaisedHead(tr[0], rest, withbottom);
      NonGapsHead(tr[0], rest);
      NonGapsHead(if tr[0].None? then None else Some(RaisedBar(tr[0].value, withbottom)), RaisedBars(rest, withbottom));
    } else {
      RaisedNothing(withbottom);
    }
  }

  lemma RaisedNothing(withbottom: bool)
    ensures NonGaps(RaisedBars([], withbottom)) == AllRaised(NonGaps([]), withbottom) == []
  {
  }

  lemma BarsMean(points: Points, other: Points, withbottom: bool)
    ensures var out := RaisedBars(EmittedBars(points, other, 0, 0), withbottom);
            && (KeysIncrease(points) && KeysIncrease(other) ==>
                NonGaps(out) == AllRaised(BarsOf(points, other), withbottom))
            && (Clean(points) && Clean(other) ==>
                  && |out| == |points|
                  && forall k {:trigger out[k]} :: 0 <= k < |points| ==>
                       out[k] == Some(RaisedBar(Bar(points[k].value, BottomAt(other, points[k].value.key)),
                                                withbottom)))
  {
    hide RaisedBar, BottomAt, KeysIncrease, EmittedBars;
    var tr := EmittedBars(points, other, 0, 0);
    RaisedNonGaps(tr, withbottom);
    if Clean(points) && Clean(other) {
      AtIsEval(points, 0.0);
      AtIsEval(other, 0.0);
    }
    if KeysIncrease(points) && KeysIncrease(other) {
      NonePassed(points, other);
      BarsMerge(points, other, 0, 0);
      assert points[0..] == points;
      if Clean(points) && Clean(other) {
        EmitsEveryBar(points, other, 0, 0);
        NonGapsOfFree(tr);
        BarsOfFree(points, other);
      }
    }
  }

  // ---------------------------------------------------------------- the loop

  /** What the loop writes from here on. */
  ghost function Written(points: Points, other: Points, withlines: bool, withbottom: bool, horizontal: bool,
                         i: nat, j: nat, fromgap: bool): Points
    requires Separated(points) && Separated(other) && i <= |points| && j <= |other|
  {
    if withlines then StackedPoints(Emitted(points, other, i, j, fromgap), withbottom, horizontal)
    else RaisedBars(EmittedBars(points, other, i, j), withbottom)
  }

  /** One turn: what it writes, and where the loop goes on. */
  datatype Turn = Turn(written: Points, i: nat, j: nat, fromgap: bool)

  ghost function TurnOf(points: Points, other: Points, withlines: bool, withbottom: bool, horizontal: bool,
                        i: nat, j: nat, fromgap: bool): Turn
    requires Separated(points) && Separated(other) && i < |points| && j <= |other|
  {
    if points[i] == None then Turn([None], i + 1, j, fromgap)
    else if j == |other| then Turn(if withlines then [] else [points[i]], i + 1, j, fromgap)
    else if other[j] == None then Turn([None], i, j + 1, true)
    else
      var p, q := points[i].value, other[j].value;
      if p.key == q.key then
        Turn([Some(Point(p.key, p.acc + q.acc, Raised(p.base, q.acc, withbottom)))], i + 1, j + 1, false)
      else if p.key > q.key then
        if withlines && i > 0 && points[i - 1] != None then
          var y := Lerp(KnotOf(points[i - 1].value), KnotOf(p), q.key);
          var base := Raised(p.base, q.acc, withbottom);
          var out := if horizontal then Point(y + q.acc, q.key, base) else Point(q.key, y + q.acc, base);
          Turn([Some(out)], i, j + 1, false)
        else Turn([], i, j + 1, false)
      else if fromgap && withlines then Turn([], i + 1, j, true)
      else
        var bottom := if withlines && j > 0 && other[j - 1] != None
                      then Lerp(KnotOf(other[j - 1].value), KnotOf(q), p.key) else 0.0;
        Turn([Some(Point(p.key, p.acc + bottom, Raised(p.base, bottom, withbottom)))], i + 1, j, false)
  }

  function Raised(base: real, bottom: real, withbottom: bool): real {
    if withbottom then base + bottom else base
  }

  lemma LinesTurn(points: Points, other: Points, withbottom: bool, horizontal: bool, i: nat, j: nat, fromgap: bool)
    requires Separated(points) && Separated(other) && i < |points| && j <= |other|
    ensures var t := TurnOf(points, other, true, withbottom, horizontal, i, j, fromgap);
            && t.i <= |points| && t.j <= |other|
            && Written(points, other, true, withbottom, horizontal, i, j, fromgap)
            == t.written + Written(points, other, true, withbottom, horizontal, t.i, t.j, t.fromgap)
  {
    hide Lerp, StackedPoints;
    var t := TurnOf(points, other, true, withbottom, horizontal, i, j, fromgap);
    var now, rest := Emitted(points, other, i, j, fromgap), Emitted(points, other, t.i, t.j, t.fromgap);
    if t.written == [] {
      NoHead(rest);
      NoHead(StackedPoints(rest, withbottom, horizontal));
      assert now == rest;
    } else {
      assert now == [now[0]] + rest;
      StackedHead(now[0], rest, withbottom, horizontal);
    }
  }

  lemma StackedHead(e: Option<Merged>, rest: Trace, withbottom: bool, horizontal: bool)
    ensures StackedPoints([e] + rest, withbottom, horizontal)
         == [if e.None? then None else Some(StackedPoint(e.value, withbottom, horizontal))]
            + StackedPoints(rest, withbottom, horizontal)
  {
  }

  lemma RaisedHead(e: Option<Bar>, rest: BarTrace, withbottom: bool)
    ensures RaisedBars([e] + rest, withbottom)
         == [if e.None? then None else Some(RaisedBar(e.value, withbottom))] + RaisedBars(rest, withbottom)
  {
  }

  lemma BarsTurn(points: Points, other: Points, withbottom: bool, horizontal: bool, i: nat, j: nat, fromgap: bool)
    requires Separated(points) && Separated(other) && i < |points| && j <= |other|
    ensures var t := TurnOf(points, other, false, withbottom, horizontal, i, j, fromgap);
            && t.i <= |points| && t.j <= |other|
            && Written(points, other, false, withbottom, horizontal, i, j, fromgap)
            == t.written + Written(points, other, false, withbottom, horizontal, t.i, t.j, t.fromgap)
  {
    var t := TurnOf(points, other, false, withbottom, horizontal, i, j, fromgap);
    var now, rest := EmittedBars(points, other, i, j), EmittedBars(points, other, t.i, t.j);
    if t.written == [] {
      NoHead(RaisedBars(rest, withbottom));
    } else {
      RaisedHead(now[0], rest, withbottom);
    }
  }

  /** The loop stacks line series with any gaps, and raises bars. */
  method StackData(points: Points, other: Points, withlines: bool, withbottom: bool, horizontal: bool)
    returns (newpoints: Points)
    requires Separated(points) && Separated(other)
    ensures withlines && !horizontal && KeysIncrease(points) && KeysIncrease(other) ==>
              StacksTo(points, other, withbottom, newpoints)
    ensures withlines && Clean(points) && Clean(other) ==>
              var tr := Emitted(points, other, 0, 0, true);
              && IsOverlay(Knots(points), Knots(other), Xs(tr), Ps(tr), Qs(tr))
              && Stacked(points, withbottom, horizontal, Xs(tr), Ps(tr), Qs(tr), newpoints)
    ensures !withlines && KeysIncrease(points) && KeysIncrease(other) ==>
              NonGaps(newpoints) == AllRaised(BarsOf(points, other), withbottom)
    ensures !withlines && Clean(points) && Clean(other) ==>
              && |newpoints| == |points|
              && forall k {:trigger newpoints[k]} :: 0 <= k < |points| ==>
                   newpoints[k] == Some(RaisedBar(Bar(points[k].value, BottomAt(other, points[k].value.key)),
                                                  withbottom))
  {
    hide Lerp, Written, IsOverlay, Stacked, StacksTo, BarsOf, AllRaised, NonGaps, KeysIncrease, BottomAt, RaisedBar;
    newpoints := [];
    var fromgap, i, j := true, 0, 0;
    ghost var whole := Written(points, other, withlines, withbottom, horizontal, 0, 0, true);
    NoHead(whole);
    while i < |points|
      invariant i <= |points| && j <= |other|
      invariant newpoints + Written(points, other, withlines, withbottom, horizontal, i, j, fromgap) == whole
      decreases |points| - i + |other| - j
    {
      var l := |newpoints|;
      ghost var before, turn := newpoints, TurnOf(points, other, withlines, withbottom, horizontal, i, j, fromgap);
      if withlines {
        LinesTurn(points, other, withbottom, horizontal, i, j, fromgap);
      } else {
        BarsTurn(points, other, withbottom, horizontal, i, j, fromgap);
      }
      ghost var rest := Written(points, other, withlines, withbottom, horizontal, turn.i, turn.j, turn.fromgap);
      if points[i] == None {
        newpoints := newpoints + [points[i]];
        i := i + 1;
      } else if j >= |other| {
        if !withlines {
          newpoints := newpoints + [points[i]];
        }
        i := i + 1;
      } else if other[j] == None {
        newpoints := newpoints + [None];
        fromgap := true;
        j := j + 1;
      } else {
        var p, q := points[i].value, other[j].value;
        var bottom := 0.0;
        if p.key == q.key {
          newpoints := newpoints + [Some(p.(acc := p.acc + q.acc))];
          bottom := q.acc;
          i := i + 1;
          j := j + 1;
        } else if p.key > q.key {
          if withlines && i > 0 && points[i - 1] != None {
            var intery := Lerp(KnotOf(points[i - 1].value), KnotOf(p), q.key);
            newpoints := newpoints + [Some(if horizontal then Point(intery + q.acc, q.key, p.base)
                                           else Point(q.key, intery + q.acc, p.base))];
            bottom := q.acc;
          }
          j := j + 1;
        } else {
          if fromgap && withlines {
            i := i + 1;
            Continue(newpoints, before, [], rest);
            continue;
          }
          if withlines && j > 0 && other[j - 1] != None {
            bottom := Lerp(KnotOf(other[j - 1].value), KnotOf(q), p.key);
          }
          newpoints := newpoints + [Some(p.(acc := p.acc + bottom))];
          i := i + 1;
        }
        fromgap := false;
        if l != |newpoints| && withbottom {
          newpoints := newpoints[l := Some(newpoints[l].value.(base := newpoints[l].value.base + bottom))];
        }
      }
      assert newpoints == before + turn.written;
      Continue(newpoints, before, turn.written, rest);
    }
    NothingLeft(points, other, withlines, withbottom, horizontal, j, fromgap);
    NoHead(newpoints);
    if withlines {
      LinesMean(points, other, withbottom, horizontal);
      WrittenLines(points, other, withbottom, horizontal);
    } else {
      BarsMean(points, other, withbottom);
      WrittenBars(points, other, withbottom, horizontal);
    }
  }

  lemma NothingLeft(points: Points, other: Points, withlines: bool, withbottom: bool, horizontal: bool, j: nat,
                    fromgap: bool)
    requires Separated(points) && Separated(other) && j <= |other|
    ensures Written(points, other, withlines, withbottom, horizontal, |points|, j, fromgap) == []
  {
  }

  lemma WrittenLines(points: Points, other: Points, withbottom: bool, horizontal: bool)
    requires Separated(points) && Separated(other)
    ensures Written(points, other, true, withbottom, horizontal, 0, 0, true)
         == StackedPoints(Emitted(points, other, 0, 0, true), withbottom, horizontal)
  {
  }

  lemma WrittenBars(points: Points, other: Points, withbottom: bool, horizontal: bool)
    requires Separated(points) && Separated(other)
    ensures Written(points, other, false, withbottom, horizontal, 0, 0, true)
         == RaisedBars(EmittedBars(points, other, 0, 0), withbottom)
  {
  }
}
