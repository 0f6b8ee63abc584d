/** The fillbetween plugin of flot (jquery.flot.fillbetween.js): the merge loop of the stack plugin, with
    the other curve as the bottom of the fill. */
module FillBetween {
  import opened BarMerge
  import opened GapMerge
  import opened Options
  import opened Overlay
  import opened PiecewiseLinear
  import opened SeriesPoints
  import opened SeriesValue

  /** findBottomSeries (42-60): the first series with the id, or else the series with that number. */
  datatype BottomRef = Id(name: string) | Number(index: int)

  method FindBottomSeries(fillBetween: BottomRef, ids: seq<Option<BottomRef>>) returns (bottom: Option<nat>)
    ensures bottom.Some? ==> bottom.value < |ids|
    ensures (exists k :: 0 <= k < |ids| && ids[k] == Some(fillBetween)) ==>
              && bottom.Some? && ids[bottom.value] == Some(fillBetween)
              && forall k :: 0 <= k < bottom.value ==> ids[k] != Some(fillBetween)
    ensures (forall k :: 0 <= k < |ids| ==> ids[k] != Some(fillBetween)) ==>
              bottom == if fillBetween.Number? && 0 <= fillBetween.index < |ids| then Some(fillBetween.index) else None
  {
    for i := 0 to |ids|
      invariant forall k :: 0 <= k < i ==> ids[k] != Some(fillBetween)
    {
      if ids[i] == Some(fillBetween) {
        return Some(i);
      }
    }
    if fillBetween.Number? {
      if fillBetween.index < 0 || fillBetween.index >= |ids| {
        return None;
      }
      return Some(fillBetween.index);
    }
    return None;
  }

  // ---------------------------------------------------------------- what is written

  /** The point the plugin writes for an emitted one: the other curve is its bottom. */
  function FilledPoint(m: Merged, withbottom: bool): Point {
    Point(m.x, m.p, if withbottom then m.q else m.base)
  }

  function FilledPoints(tr: Trace, withbottom: bool): Points {
    seq(|tr|, k requires 0 <= k < |tr| => if tr[k].None? then None else Some(FilledPoint(tr[k].value, withbottom)))
  }

  /** A bar stands on its bottom; bars behind the other series keep theirs. */
  function BasedBar(b: Bar, withbottom: bool): Point {
    if withbottom && b.bottom.Some? then b.point.(base := b.bottom.value) else b.point
  }

  function BasedBars(tr: BarTrace, withbottom: bool): Points {
    seq(|tr|, k requires 0 <= k < |tr| => if tr[k].None? then None else Some(BasedBar(tr[k].value, withbottom)))
  }

  /** What filling between curves with any gaps means: exactly where both are drawn the top draws this curve
      and the bottom the other one, with a point for every point of either there. */
  ghost predicate FillsTo(points: Points, other: Points, withbottom: bool, newpoints: Points) {
    && KeysIncrease(newpoints)
    && (forall x :: At(newpoints, x) == if Both(points, other, x) then At(points, x) else None)
    && (withbottom ==> forall x :: At(BottomsOf(newpoints), x) == if Both(points, other, x) then At(other, x) else None)
    && (forall x :: HasKnot(newpoints, x) <==> Both(points, other, x) && (HasKnot(points, x) || HasKnot(other, x)))
  }

  /** The point written for a sample of two gap-free curves. */
  ghost predicate FilledAt(points: Points, withbottom: bool, x: real, p: real, q: real, out: Option<Point>)
    requires GapFree(points)
  {
    && out.Some? && out.value.key == x && out.value.acc == p
    && if withbottom then out.value.base == q
       else exists a :: 0 <= a < |points| && out.value.base == points[a].value.base
  }

  ghost predicate Filled(points: Points, withbottom: bool, xs: seq<real>, ps: seq<real>, qs: seq<real>,
                         newpoints: Points)
    requires GapFree(points)
  {
    && |newpoints| == |xs| == |ps| == |qs|
    && forall k {:trigger newpoints[k]} :: 0 <= k < |xs| ==>
        FilledAt(points, withbottom, xs[k], ps[k], qs[k], newpoints[k])
  }

  lemma FillHere(points: Points, other: Points, tr: Trace, withbottom: bool, x: real)
    requires AgreesAt(points, other, tr, x)
    ensures var out := FilledPoints(tr, withbottom);
            && At(out, x) == (if Both(points, other, x) then At(points, x) else None)
            && (withbottom ==> At(BottomsOf(out), x) == if Both(points, other, x) then At(other, x) else None)
            && (HasKnot(out, x) <==> Both(points, other, x) && (HasKnot(points, x) || HasKnot(other, x)))
  {
    hide At, HasKnot;
    var out := FilledPoints(tr, withbottom);
    AtSame(out, OwnOf(tr), x);
    if withbottom {
      AtSame(BottomsOf(out), OtherOf(tr), x);
    }
    SameKnots(out, OwnOf(tr), x);
    hide FilledPoints, OwnOf, OtherOf, BottomsOf;
  }

  lemma SortedOut(tr: Trace, withbottom: bool)
    requires KeysIncrease(OwnOf(tr))
    ensures KeysIncrease(FilledPoints(tr, withbottom))
  {
    var out := FilledPoints(tr, withbottom);
    forall a, b | 0 <= a < b < |tr| && out[a].Some? && out[b].Some?
      ensures out[a].value.key < out[b].value.key
    {
      assert OwnOf(tr)[a].value.key < OwnOf(tr)[b].value.key;
    }
  }

  lemma BandWithGaps(points: Points, other: Points, tr: Trace, withbottom: bool)
    requires SamplesBoth(points, other, tr)
    ensures FillsTo(points, other, withbottom, FilledPoints(tr, withbottom))
  {
    hide At, HasKnot, AgreesAt, AllRight, Both, KeysIncrease, OwnOf, FilledPoints, BottomsOf;
    var out := FilledPoints(tr, withbottom);
    SortedOut(tr, withbottom);
    forall x
      ensures At(out, x) == if Both(points, other, x) then At(points, x) else None
      ensures withbottom ==> At(BottomsOf(out), x) == if Both(points, other, x) then At(other, x) else None
      ensures HasKnot(out, x) <==> Both(points, other, x) && (HasKnot(points, x) || HasKnot(other, x))
    {
      FillHere(points, other, tr, withbottom, x);
    }
  }

  lemma GapFreeFilled(points: Points, other: Points, tr: Trace, withbottom: bool)
    requires GapFree(points) && NoGap(tr) && AllRight(points, other, tr)
    ensures Filled(points, withbottom, Xs(tr), Ps(tr), Qs(tr), FilledPoints(tr, withbottom))
  {
    var out := FilledPoints(tr, withbottom);
    forall k {:trigger out[k]} | 0 <= k < |tr|
      ensures FilledAt(points, withbottom, Xs(tr)[k], Ps(tr)[k], Qs(tr)[k], out[k])
    {
      hide At, HasKnot;
      assert Right(points, other, tr[k].value);
    }
  }

  lemma LinesMean(points: Points, other: Points, withbottom: bool)
    requires Separated(points) && Separated(other)
    ensures KeysIncrease(points) && KeysIncrease(other) ==>
              FillsTo(points, other, withbottom, FilledPoints(Emitted(points, other, 0, 0, true), withbottom))
    ensures Clean(points) && Clean(other) ==>
              var tr := Emitted(points, other, 0, 0, true);
              && IsOverlay(Knots(points), Knots(other), Xs(tr), Ps(tr), Qs(tr))
              && Filled(points, withbottom, Xs(tr), Ps(tr), Qs(tr), FilledPoints(tr, withbottom))
  {
    hide Emitted, SamplesBoth, FillsTo, IsOverlay, Filled, FilledPoints, KeysIncrease;
    var tr := Emitted(points, other, 0, 0, true);
    if Clean(points) && Clean(other) {
      MergeIsOverlay(points, other);
    }
    if KeysIncrease(points) && KeysIncrease(other) {
      MergeSamplesBoth(points, other);
      BothAllRight(points, other, tr);
      BandWithGaps(points, other, tr, withbottom);
      if Clean(points) && Clean(other) {
        GapFreeFilled(points, other, tr, withbottom);
      }
    }
  }

  /** A bar stands as it was, its bottom on the bar of the other series with the same key; on zero where there
      is none; and behind the last bar of the other series its bottom is as it was. */
  ghost predicate StandsOn(p: Point, other: Points, withbottom: bool, out: Point) {
    && out.key == p.key && out.acc == p.acc
    && (!withbottom ==> out.base == p.base)
    && (withbottom && BarAt(other, p.key).Some? ==> out.base == BarAt(other, p.key).value)
    && (withbottom && !HasKnot(other, p.key) ==>
          out.base == if exists b :: 0 <= b < |other| && other[b].Some? && p.key < other[b].value.key then 0.0
                      else p.base)
  }

  ghost predicate BarsStand(points: Points, other: Points, withbottom: bool, out: Points) {
    && KeysIncrease(out) && (forall x :: HasKnot(out, x) <==> HasKnot(points, x))
    && forall b {:trigger out[b]} :: 0 <= b < |out| && out[b].Some? ==>
         exists a :: 0 <= a < |points| && points[a].Some? && StandsOn(points[a].value, other, withbottom, out[b].value)
  }

  lemma BasedStands(p: Point, other: Points, withbottom: bool)
    ensures StandsOn(p, other, withbottom, BasedBar(Bar(p, BottomAt(other, p.key)), withbottom))
  {
    hide At;
  }

  /** Every bar, and no other, comes out, on the other series. */
  lemma BarsAreBased(points: Points, other: Points, withbottom: bool, out: Points)
    requires KeysIncrease(points) && NonGaps(out) == AllBased(BarsOf(points, other), withbottom)
    ensures BarsStand(points, other, withbottom, out)
  {
    SameKeys(points, other, out) by {
      hide BarsOf, NonGaps;
    }
    hide NonGaps, BarsOf, StandsOn, BasedBar, BottomAt, KeysIncrease, HasKnot;
    forall b | 0 <= b < |out| && out[b].Some?
      ensures exists a ::
                0 <= a < |points| && points[a].Some? && StandsOn(points[a].value, other, withbottom, out[b].value)
    {
      BarsAreNonGaps(points, other);
      NonGapsMembers(out, out[b].value);
      var j :| 0 <= j < |NonGaps(out)| && NonGaps(out)[j] == out[b].value;
      var p := NonGaps(points)[j];
      NonGapsMembers(points, p);
      var a :| 0 <= a < |points| && points[a] == Some(p);
      BasedStands(p, other, withbottom);
    }
  }

  ghost function AllBased(bars: seq<Bar>, withbottom: bool): seq<Point> {
    seq(|bars|, k requires 0 <= k < |bars| => BasedBar(bars[k], withbottom))
  }

  lemma {:induction false} BasedNonGaps(tr: BarTrace, withbottom: bool)
    ensures NonGaps(BasedBars(tr, withbottom)) == AllBased(NonGaps(tr), withbottom)
  {
    hide BasedBar;
    if tr != [] {
      BasedNonGaps(tr[1..], withbottom);
      assert BasedBars(tr, withbottom)[1..] == BasedBars(tr[1..], withbottom);
    }
  }

  lemma BarsMean(points: Points, other: Points, withbottom: bool)
    ensures var out := BasedBars(EmittedBars(points, other, 0, 0), withbottom);
            && (KeysIncrease(points) && KeysIncrease(other) ==>
                NonGaps(out) == AllBased(BarsOf(points, other), withbottom))
            && (Clean(points) && Clean(other) ==>
                  && |out| == |points|
                  && forall k {:trigger out[k]} :: 0 <= k < |points| ==>
                       out[k] == Some(BasedBar(Bar(points[k].value, BottomAt(other, points[k].value.key)), withbottom)))
  {
    hide BasedBar, BottomAt, KeysIncrease, EmittedBars;
    var tr := EmittedBars(points, other, 0, 0);
    BasedNonGaps(tr, withbottom);
    if Clean(points) && Clean(other) {
      AtIsEval(points, 0.0);
      AtIsEval(other, 0.0);
    }
    if KeysIncrease(points) && KeysIncrease(other) {
      NonePassed(points, other);
      BarsMerge(points, other, 0, 0);
      assert points[0..] == points;
      if Clean(points) && Clean(other) {
        EmitsEveryBar(points, other, 0, 0);
        NonGapsOfFree(tr);
        BarsOfFree(points, other);
      }
    }
  }

  // ---------------------------------------------------------------- the loop

  /** What the loop writes from here on. */
  ghost function Written(points: Points, other: Points, withlines: bool, withbottom: bool,
                         i: nat, j: nat, fromgap: bool): Points
    requires Separated(points) && Separated(other) && i <= |points| && j <= |other|
  {
    if withlines then FilledPoints(Emitted(points, other, i, j, fromgap), withbottom)
    else BasedBars(EmittedBars(points, other, i, j), withbottom)
  }

  /** One turn: what it writes, and where the loop goes on. */
  datatype Turn = Turn(written: Points, i: nat, j: nat, fromgap: bool)

  ghost function TurnOf(points: Points, other: Points, withlines: bool, withbottom: bool,
                        i: nat, j: nat, fromgap: bool): Turn
    requires Separated(points) && Separated(other) && i < |points| && j <= |other|
  {
    if points[i] == None then Turn([None], i + 1, j, fromgap)
    else if j == |other| then Turn(if withlines then [] else [points[i]], i + 1, j, fromgap)
    else if other[j] == None then Turn([None], i, j + 1, true)
    else
      var p, q := points[i].value, other[j].value;
      if p.key == q.key then
        Turn([Based(p, q.acc, withbottom)], i + 1, j + 1, false)
      else if p.key > q.key then
        if withlines && i > 0 && points[i - 1] != None then
          var y := Lerp(KnotOf(points[i - 1].value), KnotOf(p), q.key);
          Turn([Based(Point(q.key, y, p.base), q.acc, withbottom)], i, j + 1, false)
        else Turn([], i, j + 1, false)
      else if fromgap && withlines then Turn([], i + 1, j, true)
      else
        var bottom := if withlines && j > 0 && other[j - 1] != None
                      then Lerp(KnotOf(other[j - 1].value), KnotOf(q), p.key) else 0.0;
        Turn([Based(p, bottom, withbottom)], i + 1, j, false)
  }

  function Based(p: Point, bottom: real, withbottom: bool): Option<Point> {
    Some(if withbottom then p.(base := bottom) else p)
  }

  lemma LinesTurn(points: Points, other: Points, withbottom: bool, i: nat, j: nat, fromgap: bool)
    requires Separated(points) && Separated(other) && i < |points| && j <= |other|
    ensures var t := TurnOf(points, other, true, withbottom, i, j, fromgap);
            && t.i <= |points| && t.j <= |other|
            && Written(points, other, true, withbottom, i, j, fromgap)
            == t.written + Written(points, other, true, withbottom, t.i, t.j, t.fromgap)
  {
    hide Lerp, FilledPoints;
    var t := TurnOf(points, other, true, withbottom, i, j, fromgap);
    var now, rest := Emitted(points, other, i, j, fromgap), Emitted(points, other, t.i, t.j, t.fromgap);
    if t.written == [] {
      NoHead(rest);
      NoHead(FilledPoints(rest, withbottom));
      assert now == rest;
    } else {
      assert now == [now[0]] + rest;
      FilledHead(now[0], rest, withbottom);
    }
  }

  lemma FilledHead(e: Option<Merged>, rest: Trace, withbottom: bool)
    ensures FilledPoints([e] + rest, withbottom)
         == [if e.None? then None else Some(FilledPoint(e.value, withbottom))]
            + FilledPoints(rest, withbottom)
  {
  }

  lemma BasedHead(e: Option<Bar>, rest: BarTrace, withbottom: bool)
    ensures BasedBars([e] + rest, withbottom)
         == [if e.None? then None else Some(BasedBar(e.value, withbottom))] + BasedBars(rest, withbottom)
  {
  }

  lemma BarsTurn(points: Points, other: Points, withbottom: bool, i: nat, j: nat, fromgap: bool)
    requires Separated(points) && Separated(other) && i < |points| && j <= |other|
    ensures var t := TurnOf(points, other, false, withbottom, i, j, fromgap);
            && t.i <= |points| && t.j <= |other|
            && Written(points, other, false, withbottom, i, j, fromgap)
            == t.written + Written(points, other, false, withbottom, t.i, t.j, t.fromgap)
  {
    var t := TurnOf(points, other, false, withbottom, i, j, fromgap);
    var now, rest := EmittedBars(points, other, i, j), EmittedBars(points, other, t.i, t.j);
    if t.written == [] {
      NoHead(BasedBars(rest, withbottom));
    } else {
      BasedHead(now[0], rest, withbottom);
    }
  }

  /** The loop fills between curves with any gaps, and puts bars on bars. */
  method ComputeFillBottoms(points: Points, other: Points, withlines: bool, withbottom: bool)
    returns (newpoints: Points)
    requires Separated(points) && Separated(other)
    ensures withlines && KeysIncrease(points) && KeysIncrease(other) ==>
              FillsTo(points, other, withbottom, newpoints)
    ensures withlines && Clean(points) && Clean(other) ==>
              var tr := Emitted(points, other, 0, 0, true);
              && IsOverlay(Knots(points), Knots(other), Xs(tr), Ps(tr), Qs(tr))
              && Filled(points, withbottom, Xs(tr), Ps(tr), Qs(tr), newpoints)
    ensures !withlines && KeysIncrease(points) && KeysIncrease(other) ==>
              NonGaps(newpoints) == AllBased(BarsOf(points, other), withbottom)
    ensures !withlines && KeysIncrease(points) && KeysIncrease(other) ==>
              BarsStand(points, other, withbottom, newpoints)
    ensures !withlines && Clean(points) && Clean(other) ==>
              && |newpoints| == |points|
              && forall k {:trigger newpoints[k]} :: 0 <= k < |points| ==>
                   newpoints[k] == Some(BasedBar(Bar(points[k].value, BottomAt(other, points[k].value.key)),
                                                 withbottom))
  {
    hide Lerp, Written, IsOverlay, Filled, FillsTo, BarsOf, AllBased, NonGaps, KeysIncrease, BottomAt, BasedBar,
      BarsStand;
    newpoints := [];
    var fromgap, i, j := true, 0, 0;
    ghost var whole := Written(points, other, withlines, withbottom, 0, 0, true);
    NoHead(whole);
    while i < |points|
      invariant i <= |points| && j <= |other|
      invariant newpoints + Written(points, other, withlines, withbottom, i, j, fromgap) == whole
      decreases |points| - i + |other| - j
    {
      var l := |newpoints|;
      ghost var before, turn := newpoints, TurnOf(points, other, withlines, withbottom, i, j, fromgap);
      if withlines {
        LinesTurn(points, other, withbottom, i, j, fromgap);
      } else {
        BarsTurn(points, other, withbottom, i, j, fromgap);
      }
      ghost var rest := Written(points, other, withlines, withbottom, turn.i, turn.j, turn.fromgap);
      if points[i] == None {
        newpoints := newpoints + [points[i]];
        i := i + 1;
      } else if j >= |other| {
        if !withlines {
          newpoints := newpoints + [points[i]];
        }
        i := i + 1;
      } else if other[j] == None {
        newpoints := newpoints + [None];
        fromgap := true;
        j := j + 1;
      } else {
        var p, q := points[i].value, other[j].value;
        var bottom := 0.0;
        if p.key == q.key {
          newpoints := newpoints + [points[i]];
          bottom := q.acc;
          i := i + 1;
          j := j + 1;
        } else if p.key > q.key {
          if withlines && i > 0 && points[i - 1] != None {
            var intery := Lerp(KnotOf(points[i - 1].value), KnotOf(p), q.key);
            newpoints := newpoints + [Some(Point(q.key, intery, p.base))];
            bottom := q.acc;
          }
          j := j + 1;
        } else {
          if fromgap && withlines {
            i := i + 1;
            Continue(newpoints, before, [], rest);
            continue;
          }
          if withlines && j > 0 && other[j - 1] != None {
            bottom := Lerp(KnotOf(other[j - 1].value), KnotOf(q), p.key);
          }
          newpoints := newpoints + [points[i]];
          i := i + 1;
        }
        fromgap := false;
        if l != |newpoints| && withbottom {
          newpoints := newpoints[l := Some(newpoints[l].value.(base := bottom))];
        }
      }
      assert newpoints == before + turn.written;
      Continue(newpoints, before, turn.written, rest);
    }
    NothingLeft(points, other, withlines, withbottom, j, fromgap);
    NoHead(newpoints);
    if withlines {
      LinesMean(points, other, withbottom);
      WrittenLines(points, other, withbottom);
    } else {
      BarsMean(points, other, withbottom);
      WrittenBars(points, other, withbottom);
      if KeysIncrease(points) && KeysIncrease(other) {
        BarsAreBased(points, other, withbottom, newpoints);
      }
    }
  }

  lemma NothingLeft(points: Points, other: Points, withlines: bool, withbottom: bool, j: nat, fromgap: bool)
    requires Separated(points) && Separated(other) && j <= |other|
    ensures Written(points, other, withlines, withbottom, |points|, j, fromgap) == []
  {
  }

  lemma WrittenLines(points: Points, other: Points, withbottom: bool)
    requires Separated(points) && Separated(other)
    ensures Written(points, other, true, withbottom, 0, 0, true)
         == FilledPoints(Emitted(points, other, 0, 0, true), withbottom)
  {
  }

  lemma WrittenBars(points: Points, other: Points, withbottom: bool)
    requires Separated(points) && Separated(other)
    ensures Written(points, other, false, withbottom, 0, 0, true)
         == BasedBars(EmittedBars(points, other, 0, 0), withbottom)
  {
  }

  // ---------------------------------------------------------------- two gap-free curves

  ghost function Bottoms(newpoints: Points): (f: seq<Knot>)
    requires GapFree(newpoints)
    ensures |f| == |newpoints|
  {
    seq(|newpoints|, k requires 0 <= k < |newpoints| => Knot(newpoints[k].value.key, newpoints[k].value.base))
  }

  /** The filled band: its top draws this curve and its bottom draws the other curve, both on exactly the
      domain the two curves have in common. */
  lemma FillIsBand(points: Points, other: Points, xs: seq<real>, ps: seq<real>, qs: seq<real>, newpoints: Points)
    requires Clean(points) && Clean(other)
    requires IsOverlay(Knots(points), Knots(other), xs, ps, qs)
    requires Filled(points, true, xs, ps, qs, newpoints)
    ensures Clean(newpoints) && Increasing(Bottoms(newpoints))
    ensures forall x :: InDomain(Knots(newpoints), x) <==> InDomain(Knots(points), x) && InDomain(Knots(other), x)
    ensures forall x :: InDomain(Knots(newpoints), x) ==>
              && InDomain(Bottoms(newpoints), x)
              && Eval(Knots(newpoints), x) == Eval(Knots(points), x)
              && Eval(Bottoms(newpoints), x) == Eval(Knots(other), x)
  {
    hide Eval;
    assert GapFree(newpoints);
    assert Knots(newpoints) == Polyline(xs, ps) && Bottoms(newpoints) == Polyline(xs, qs) by {
      forall k | 0 <= k < |xs|
        ensures Knots(newpoints)[k] == Polyline(xs, ps)[k] && Bottoms(newpoints)[k] == Polyline(xs, qs)[k]
      {
        assert FilledAt(points, true, xs[k], ps[k], qs[k], newpoints[k]);
      }
    }
    forall x
      ensures InDomain(Knots(newpoints), x) <==> InDomain(Knots(points), x) && InDomain(Knots(other), x)
      ensures InDomain(Knots(newpoints), x) ==>
                && InDomain(Bottoms(newpoints), x)
                && Eval(Knots(newpoints), x) == Eval(Knots(points), x)
                && Eval(Bottoms(newpoints), x) == Eval(Knots(other), x)
    {
      OverlayDraws(Knots(points), Knots(other), xs, ps, qs, x);
    }
  }
}
