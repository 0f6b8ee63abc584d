/** The merge of a sampled top curve with a sampled bottom curve in processDatapoints (curvedLines.js).
    The source writes three flat slots per step; a FillPoint is one such triple, and None stands for
    JavaScript's null and undefined. */
module FillMerge {
  import opened CurveSamples
  import opened Hermite
  import opened Options
  import opened Reals

  datatype FillPoint<Y> = FillPoint(x: Option<real>, top: Option<Y>, bottom: Option<Y>)

  datatype State<Y> = State(i: nat, j: nat, points: seq<FillPoint<Y>>)

  predicate Done<Y>(top: seq<(real, Y)>, bottom: seq<(real, Y)>, s: State<Y>) {
    |top| <= s.i && |bottom| <= s.j
  }

  function LastTop<Y>(points: seq<FillPoint<Y>>): Option<Y> {
    if points == [] then None else points[|points| - 1].top
  }

  function LastBottom<Y>(points: seq<FillPoint<Y>>): Option<Y> {
    if points == [] then None else points[|points| - 1].bottom
  }

  /** One turn of the loop. A comparison with an undefined abscissa is false, so once one side is
      exhausted the last branch is taken, whichever side that is. */
  function Step<Y>(top: seq<(real, Y)>, bottom: seq<(real, Y)>, s: State<Y>): State<Y>
    requires !Done(top, bottom, s)
  {
    if s.i < |top| && s.j < |bottom| && top[s.i].0 == bottom[s.j].0 then
      State(s.i + 1, s.j + 1,
            s.points + [FillPoint(Some(top[s.i].0), Some(top[s.i].1), Some(bottom[s.j].1))])
    else if s.i < |top| && s.j < |bottom| && top[s.i].0 < bottom[s.j].0 then
      State(s.i + 1, s.j,
            s.points + [FillPoint(Some(top[s.i].0), Some(top[s.i].1), LastBottom(s.points))])
    else if s.j < |bottom| then
      State(s.i, s.j + 1,
            s.points + [FillPoint(Some(bottom[s.j].0), LastTop(s.points), Some(bottom[s.j].1))])
    else
      State(s.i, s.j + 1, s.points + [FillPoint(None, LastTop(s.points), None)])
  }

  function Run<Y>(top: seq<(real, Y)>, bottom: seq<(real, Y)>, s: State<Y>, n: nat): State<Y>
    decreases n
  {
    if n == 0 || Done(top, bottom, s) then s
    else Run(top, bottom, Step(top, bottom, s), n - 1)
  }

  ghost predicate Terminates<Y>(top: seq<(real, Y)>, bottom: seq<(real, Y)>) {
    exists n: nat :: Done(top, bottom, Run(top, bottom, State(0, 0, []), n))
  }

  /** The top curve does not reach beyond the bottom curve. */
  predicate BottomReachesTop<Y>(top: seq<(real, Y)>, bottom: seq<(real, Y)>) {
    top == [] || (bottom != [] && top[|top| - 1].0 <= bottom[|bottom| - 1].0)
  }

  ghost predicate Sorted<Y>(s: seq<(real, Y)>) {
    forall a, b :: 0 <= a < b < |s| ==> s[a].0 < s[b].0
  }

  lemma {:induction false} NeverDone<Y>(top: seq<(real, Y)>, bottom: seq<(real, Y)>, s: State<Y>, n: nat)
    requires Sorted(top) && Sorted(bottom) && !BottomReachesTop(top, bottom)
    requires s.i < |top|
    ensures !Done(top, bottom, Run(top, bottom, s, n))
    decreases n
  {
    if n > 0 {
      var s' := Step(top, bottom, s);
      NeverDone(top, bottom, s', n - 1);
    }
  }

  /** Along a run that will end, the bottom curve is not exhausted before the top curve. */
  predicate OnTrack<Y>(top: seq<(real, Y)>, bottom: seq<(real, Y)>, s: State<Y>) {
    s.i <= |top| && s.j <= |bottom| && (s.i < |top| ==> s.j < |bottom|)
  }

  lemma StepStaysOnTrack<Y>(top: seq<(real, Y)>, bottom: seq<(real, Y)>, s: State<Y>)
    requires Sorted(top) && Sorted(bottom) && BottomReachesTop(top, bottom)
    requires OnTrack(top, bottom, s) && !Done(top, bottom, s)
    ensures OnTrack(top, bottom, Step(top, bottom, s))
  {
  }

  lemma {:induction false} DoneInTime<Y>(top: seq<(real, Y)>, bottom: seq<(real, Y)>, s: State<Y>, n: nat)
    requires Sorted(top) && Sorted(bottom) && BottomReachesTop(top, bottom)
    requires OnTrack(top, bottom, s) && |top| + |bottom| - s.i - s.j <= n
    ensures Done(top, bottom, Run(top, bottom, s, n))
    decreases n
  {
    if !Done(top, bottom, s) {
      StepStaysOnTrack(top, bottom, s);
      DoneInTime(top, bottom, Step(top, bottom, s), n - 1);
    }
  }

  /** For curves with increasing abscissae the loop ends exactly when the top curve does not reach
      beyond the bottom curve; otherwise it appends undefined points forever. */
  lemma TerminatesExactlyWhen<Y>(top: seq<(real, Y)>, bottom: seq<(real, Y)>)
    requires Sorted(top) && Sorted(bottom)
    ensures Terminates(top, bottom) <==> BottomReachesTop(top, bottom)
  {
    var start := State(0, 0, []);
    if BottomReachesTop(top, bottom) {
      DoneInTime(top, bottom, start, |top| + |bottom|);
    } else {
      forall n: nat
        ensures !Done(top, bottom, Run(top, bottom, start, n))
      {
        NeverDone(top, bottom, start, n);
      }
    }
  }

  ghost function Zip<Y>(top: seq<(real, Y)>, bottom: seq<(real, Y)>, n: nat): seq<FillPoint<Y>>
    requires n <= |top| && n <= |bottom|
  {
    seq(n, k requires 0 <= k < n => FillPoint(Some(top[k].0), Some(top[k].1), Some(bottom[k].1)))
  }

  ghost predicate SameAbscissae<Y>(top: seq<(real, Y)>, bottom: seq<(real, Y)>) {
    |top| == |bottom| && forall k {:trigger top[k]} :: 0 <= k < |top| ==> top[k].0 == bottom[k].0
  }

  /** On common abscissae the loop pairs the curves sample by sample. */
  lemma {:induction false} RunZips<Y>(top: seq<(real, Y)>, bottom: seq<(real, Y)>, i: nat, n: nat)
    requires SameAbscissae(top, bottom) && i <= |top| <= i + n
    ensures Run(top, bottom, State(i, i, Zip(top, bottom, i)), n) == State(|top|, |top|, Zip(top, bottom, |top|))
    decreases n
  {
    if i < |top| {
      RunZips(top, bottom, i + 1, n - 1);
      assert Zip(top, bottom, i + 1)
          == Zip(top, bottom, i) + [FillPoint(Some(top[i].0), Some(top[i].1), Some(bottom[i].1))];
    }
  }

  /** So on common abscissae it ends, in whatever order they are, and its result is the pairing. */
  lemma RunZipsFromStart<Y>(top: seq<(real, Y)>, bottom: seq<(real, Y)>, n: nat)
    requires SameAbscissae(top, bottom)
    ensures Terminates(top, bottom)
    ensures Done(top, bottom, Run(top, bottom, State(0, 0, []), n)) ==>
              Run(top, bottom, State(0, 0, []), n).points == Zip(top, bottom, |top|)
  {
    var start := State(0, 0, []);
    assert Zip(top, bottom, 0) == [];
    RunZips(top, bottom, 0, |top|);
    assert Done(top, bottom, Run(top, bottom, start, |top|));
    if Done(top, bottom, Run(top, bottom, start, n)) {
      RunsEndAlike(top, bottom, start, n, |top|);
    }
  }

  lemma {:induction false} RunsEndAlike<Y>(top: seq<(real, Y)>, bottom: seq<(real, Y)>, s: State<Y>, n: nat, n': nat)
    requires Done(top, bottom, Run(top, bottom, s, n)) && Done(top, bottom, Run(top, bottom, s, n'))
    ensures Run(top, bottom, s, n) == Run(top, bottom, s, n')
    decreases n
  {
    if n > 0 && n' > 0 && !Done(top, bottom, s) {
      RunsEndAlike(top, bottom, Step(top, bottom, s), n - 1, n' - 1);
    }
  }

  /** Once the bottom curve alone is exhausted, the loop goes on for ever. */
  lemma {:induction false} ExhaustedGoesOn<Y>(top: seq<(real, Y)>, bottom: seq<(real, Y)>, s: State<Y>, n: nat)
    requires s.i < |top| && |bottom| <= s.j
    ensures !Done(top, bottom, Run(top, bottom, s, n))
    decreases n
  {
    if n > 0 {
      ExhaustedGoesOn(top, bottom, Step(top, bottom, s), n - 1);
    }
  }

  // ---------------------------------------------------------------- curves with different abscissae

  /** The ordinate of the last sample at or before x. */
  ghost function Latest<Y>(s: seq<(real, Y)>, x: real): Option<Y> {
    if s == [] then None
    else if s[|s| - 1].0 <= x then Some(s[|s| - 1].1)
    else Latest(s[..|s| - 1], x)
  }

  lemma {:induction false} LatestIs<Y>(s: seq<(real, Y)>, x: real, n: nat)
    requires n <= |s|
    requires forall a :: 0 <= a < n ==> s[a].0 <= x
    requires forall a :: n <= a < |s| ==> x < s[a].0
    ensures Latest(s, x) == if n == 0 then None else Some(s[n - 1].1)
    decreases |s|
  {
    if n < |s| {
      LatestIs(s[..|s| - 1], x, n);
    }
  }

  /** A merged point has both curves at its abscissa, each as it was at its latest sample. */
  ghost predicate HoldsBoth<Y>(top: seq<(real, Y)>, bottom: seq<(real, Y)>, p: FillPoint<Y>) {
    p.x.Some? && p.top == Latest(top, p.x.value) && p.bottom == Latest(bottom, p.x.value)
  }

  ghost predicate HasX<Y>(s: seq<(real, Y)>, x: real) {
    exists a :: 0 <= a < |s| && s[a].0 == x
  }

  /** A point stands at an abscissa of one of the curves and holds both. */
  ghost predicate IsHeld<Y>(top: seq<(real, Y)>, bottom: seq<(real, Y)>, p: FillPoint<Y>) {
    HoldsBoth(top, bottom, p) && (HasX(top, p.x.value) || HasX(bottom, p.x.value))
  }

  ghost predicate AllHeld<Y>(top: seq<(real, Y)>, bottom: seq<(real, Y)>, points: seq<FillPoint<Y>>) {
    forall k {:trigger points[k]} :: 0 <= k < |points| ==> IsHeld(top, bottom, points[k])
  }

  /** The points have increasing abscissae of at most l. */
  ghost predicate AscendTo<Y>(points: seq<FillPoint<Y>>, l: real) {
    && (forall k {:trigger points[k]} :: 0 <= k < |points| ==> points[k].x.Some? && points[k].x.value <= l)
    && forall a, b :: 0 <= a < b < |points| ==> points[a].x.value < points[b].x.value
  }

  /** The first n samples have a point. */
  ghost predicate Covers<Y>(points: seq<FillPoint<Y>>, s: seq<(real, Y)>, n: nat)
    requires n <= |s|
  {
    forall a {:trigger s[a]} :: 0 <= a < n ==> exists k :: 0 <= k < |points| && points[k].x == Some(s[a].0)
  }

  /** What a merge of two increasing curves is: one point for every abscissa of either, in order, with both
      curves held at their latest ordinates. */
  ghost predicate Held<Y>(top: seq<(real, Y)>, bottom: seq<(real, Y)>, points: seq<FillPoint<Y>>) {
    && (exists l :: AscendTo(points, l))
    && AllHeld(top, bottom, points)
    && Covers(points, top, |top|) && Covers(points, bottom, |bottom|)
  }

  /** The samples before n have abscissae of at most l, the others greater ones. */
  ghost predicate Parted<Y>(s: seq<(real, Y)>, n: nat, l: real) {
    n <= |s| && (forall a :: 0 <= a < n ==> s[a].0 <= l) && forall a :: n <= a < |s| ==> l < s[a].0
  }

  /** The same up to l. */
  ghost predicate HeldUpTo<Y>(top: seq<(real, Y)>, bottom: seq<(real, Y)>, s: State<Y>, l: real) {
    && Parted(top, s.i, l) && Parted(bottom, s.j, l)
    && LastTop(s.points) == (if s.i == 0 then None else Some(top[s.i - 1].1))
    && LastBottom(s.points) == (if s.j == 0 then None else Some(bottom[s.j - 1].1))
    && AscendTo(s.points, l)
    && AllHeld(top, bottom, s.points)
    && Covers(s.points, top, s.i) && Covers(s.points, bottom, s.j)
  }

  lemma AscendOn<Y>(points: seq<FillPoint<Y>>, l: real, p: FillPoint<Y>)
    requires AscendTo(points, l) && p.x.Some? && l < p.x.value
    ensures AscendTo(points + [p], p.x.value)
  {
  }

  lemma HeldOn<Y>(top: seq<(real, Y)>, bottom: seq<(real, Y)>, points: seq<FillPoint<Y>>, p: FillPoint<Y>)
    requires AllHeld(top, bottom, points) && IsHeld(top, bottom, p)
    ensures AllHeld(top, bottom, points + [p])
    ensures LastTop(points + [p]) == p.top && LastBottom(points + [p]) == p.bottom
  {
    hide IsHeld;
  }

  lemma PartedOn<Y>(s: seq<(real, Y)>, n: nat, l: real, x: real)
    requires Sorted(s) && Parted(s, n, l) && l < x && (n < |s| ==> x <= s[n].0)
    ensures Parted(s, if n < |s| && x == s[n].0 then n + 1 else n, x)
  {
  }

  lemma CoversOn<Y>(points: seq<FillPoint<Y>>, s: seq<(real, Y)>, n: nat, p: FillPoint<Y>)
    requires n <= |s| && Covers(points, s, n)
    ensures Covers(points + [p], s, n)
    ensures n < |s| && p.x == Some(s[n].0) ==> Covers(points + [p], s, n + 1)
  {
    var all := points + [p];
    assert all[|points|] == p;
    forall a | 0 <= a < n
      ensures exists k :: 0 <= k < |all| && all[k].x == Some(s[a].0)
    {
      var k :| 0 <= k < |points| && points[k].x == Some(s[a].0);
      assert all[k] == points[k];
    }
  }

  /** The next abscissa of two curves neither of which is at its end, or of the one that is left. */
  ghost function NextX<Y>(top: seq<(real, Y)>, bottom: seq<(real, Y)>, i: nat, j: nat): real
    requires i <= |top| && j < |bottom|
  {
    if i < |top| && top[i].0 < bottom[j].0 then top[i].0 else bottom[j].0
  }

  lemma StepIs<Y>(top: seq<(real, Y)>, bottom: seq<(real, Y)>, s: State<Y>)
    requires OnTrack(top, bottom, s) && !Done(top, bottom, s)
    ensures var x, s' := NextX(top, bottom, s.i, s.j), Step(top, bottom, s);
            && s'.i == (if s.i < |top| && x == top[s.i].0 then s.i + 1 else s.i)
            && s'.j == (if x == bottom[s.j].0 then s.j + 1 else s.j)
            && s'.points == s.points + [
                 FillPoint(Some(x), if s'.i > s.i then Some(top[s.i].1) else LastTop(s.points),
                           if s'.j > s.j then Some(bottom[s.j].1) else LastBottom(s.points))]
  {
  }

  lemma StepHolds<Y>(top: seq<(real, Y)>, bottom: seq<(real, Y)>, s: State<Y>, l: real)
    requires Sorted(top) && Sorted(bottom) && HeldUpTo(top, bottom, s, l)
    requires OnTrack(top, bottom, s) && !Done(top, bottom, s)
    ensures HeldUpTo(top, bottom, Step(top, bottom, s), NextX(top, bottom, s.i, s.j))
  {
    hide Sorted, Covers, Step, Latest, HasX, AscendTo, AllHeld, LastTop, LastBottom, Parted;
    StepIs(top, bottom, s);
    var x, s' := NextX(top, bottom, s.i, s.j), Step(top, bottom, s);
    var p := s'.points[|s.points|];
    NextIsBeyond(top, bottom, s.i, s.j, l);
    PassOn(s.points, top, s.i, l, p);
    PassOn(s.points, bottom, s.j, l, p);
    AscendOn(s.points, l, p);
    assert IsHeld(top, bottom, p);
    hide IsHeld;
    HeldOn(top, bottom, s.points, p);
  }

  lemma NextIsBeyond<Y>(top: seq<(real, Y)>, bottom: seq<(real, Y)>, i: nat, j: nat, l: real)
    requires Parted(top, i, l) && Parted(bottom, j, l) && j < |bottom|
    ensures i <= |top| && l < NextX(top, bottom, i, j) <= bottom[j].0
    ensures i < |top| ==> NextX(top, bottom, i, j) <= top[i].0
  {
  }

  /** How many samples of a curve that was passed up to n are passed at the next abscissa x. */
  function PassedAt<Y>(s: seq<(real, Y)>, n: nat, x: real): nat {
    if n < |s| && x == s[n].0 then n + 1 else n
  }

  lemma PassOn<Y>(points: seq<FillPoint<Y>>, s: seq<(real, Y)>, n: nat, l: real, p: FillPoint<Y>)
    requires Sorted(s) && Parted(s, n, l) && Covers(points, s, n)
    requires p.x.Some? && l < p.x.value && (n < |s| ==> p.x.value <= s[n].0)
    ensures var x, n' := p.x.value, PassedAt(s, n, p.x.value);
            && n' <= |s| && Parted(s, n', x) && Covers(points + [p], s, n')
            && Latest(s, x) == (if n' == 0 then None else Some(s[n' - 1].1))
            && (n < n' ==> HasX(s, x))
  {
    hide Sorted, Covers, Latest, HasX;
    PartedOn(s, n, l, p.x.value);
    LatestAt(s, PassedAt(s, n, p.x.value), p.x.value);
    CoversOn(points, s, n, p);
    XHere(s, n);
  }

  lemma XHere<Y>(s: seq<(real, Y)>, n: nat)
    ensures n < |s| ==> HasX(s, s[n].0)
  {
  }

  lemma LatestAt<Y>(s: seq<(real, Y)>, n: nat, x: real)
    requires Parted(s, n, x)
    ensures Latest(s, x) == if n == 0 then None else Some(s[n - 1].1)
  {
    LatestIs(s, x, n);
  }

  lemma {:induction false} RunHolds<Y>(top: seq<(real, Y)>, bottom: seq<(real, Y)>, s: State<Y>, l: real, n: nat)
    returns (l': real)
    requires Sorted(top) && Sorted(bottom) && BottomReachesTop(top, bottom)
    requires HeldUpTo(top, bottom, s, l) && OnTrack(top, bottom, s)
    ensures HeldUpTo(top, bottom, Run(top, bottom, s, n), l')
    decreases n
  {
    hide HeldUpTo, Sorted;
    l' := l;
    if n > 0 && !Done(top, bottom, s) {
      StepHolds(top, bottom, s, l);
      StepStaysOnTrack(top, bottom, s);
      l' := RunHolds(top, bottom, Step(top, bottom, s), NextX(top, bottom, s.i, s.j), n - 1);
    }
  }

  lemma NothingHeld<Y>(top: seq<(real, Y)>, bottom: seq<(real, Y)>) returns (l: real)
    requires Sorted(top) && Sorted(bottom)
    ensures HeldUpTo(top, bottom, State(0, 0, []), l)
  {
    l := if top == [] then 0.0 else top[0].0 - 1.0;
    if bottom != [] && bottom[0].0 <= l {
      l := bottom[0].0 - 1.0;
    }
  }

  /** Two increasing curves, of which the top one does not reach beyond the other, are merged as they should
      be. */
  lemma MergeHolds<Y>(top: seq<(real, Y)>, bottom: seq<(real, Y)>, n: nat)
    requires Sorted(top) && Sorted(bottom)
    requires Done(top, bottom, Run(top, bottom, State(0, 0, []), n))
    ensures Held(top, bottom, Run(top, bottom, State(0, 0, []), n).points)
  {
    hide Run, Sorted, AscendTo, AllHeld, Covers, Parted;
    TerminatesExactlyWhen(top, bottom);
    var l := NothingHeld(top, bottom);
    l := RunHolds(top, bottom, State(0, 0, []), l, n);
    RestIsNothing(top, bottom, Run(top, bottom, State(0, 0, []), n), l);
  }

  lemma RestIsNothing<Y>(top: seq<(real, Y)>, bottom: seq<(real, Y)>, s: State<Y>, l: real)
    requires HeldUpTo(top, bottom, s, l) && Done(top, bottom, s)
    ensures s.i == |top| && s.j == |bottom|
  {
  }

  lemma RunStep<Y>(top: seq<(real, Y)>, bottom: seq<(real, Y)>, s: State<Y>, n: nat)
    requires !Done(top, bottom, s) && Done(top, bottom, Run(top, bottom, s, n))
    ensures 0 < n && Run(top, bottom, s, n) == Run(top, bottom, Step(top, bottom, s), n - 1)
    ensures s.i < |top| ==> s.j < |bottom|
  {
    if s.i < |top| && |bottom| <= s.j {
      ExhaustedGoesOn(top, bottom, s, n);
    }
  }

  lemma RunDone<Y>(top: seq<(real, Y)>, bottom: seq<(real, Y)>, s: State<Y>, n: nat)
    requires Done(top, bottom, s)
    ensures Run(top, bottom, s, n) == s
  {
  }

  /** The loop, for any two curves for which it ends. */
  method MergeCurves<Y>(top: seq<(real, Y)>, bottom: seq<(real, Y)>) returns (merged: seq<FillPoint<Y>>)
    requires Terminates(top, bottom)
    ensures forall n: nat :: Done(top, bottom, Run(top, bottom, State(0, 0, []), n)) ==>
              merged == Run(top, bottom, State(0, 0, []), n).points
    ensures SameAbscissae(top, bottom) ==> merged == Zip(top, bottom, |top|)
    ensures Sorted(top) && Sorted(bottom) ==> Held(top, bottom, merged)
  {
    merged := [];
    var i, j := 0, 0;
    ghost var turns: nat :| Done(top, bottom, Run(top, bottom, State(0, 0, []), turns));
    ghost var left, whole := turns, Run(top, bottom, State(0, 0, []), turns);
    hide Run, Zip, Held, Sorted;
    while i < |top| || j < |bottom|
      invariant whole == Run(top, bottom, State(i, j, merged), left) && Done(top, bottom, whole)
      decreases left
    {
      ghost var s := State(i, j, merged);
      RunStep(top, bottom, s, left);
      if i < |top| && j < |bottom| && top[i].0 == bottom[j].0 {
        merged := merged + [FillPoint(Some(top[i].0), Some(top[i].1), Some(bottom[j].1))];
        j := j + 1;
        i := i + 1;
      } else if i < |top| && j < |bottom| && top[i].0 < bottom[j].0 {
        merged := merged + [FillPoint(Some(top[i].0), Some(top[i].1), LastBottom(merged))];
        i := i + 1;
      } else {
        merged := merged + [FillPoint(Some(bottom[j].0), LastTop(merged), Some(bottom[j].1))];
        j := j + 1;
      }
      left := left - 1;
      assert State(i, j, merged) == Step(top, bottom, s);
    }
    RunDone(top, bottom, State(i, j, merged), left);
    forall n: nat | Done(top, bottom, Run(top, bottom, State(0, 0, []), n))
      ensures merged == Run(top, bottom, State(0, 0, []), n).points
    {
      RunsEndAlike(top, bottom, State(0, 0, []), n, turns);
    }
    if SameAbscissae(top, bottom) {
      RunZipsFromStart(top, bottom, turns);
    }
    if Sorted(top) && Sorted(bottom) {
      MergeHolds(top, bottom, turns);
    }
  }

  /** The filled curve of one series: the merge always ends, and pairs the two curves sample by sample. */
  method FilledCurve(px: seq<real>, pTop: seq<real>, pBottom: seq<real>, monotonicFit: bool, tension: real, rate: real)
    returns (points: seq<FillPoint<real>>, top: seq<Sample>, bottom: seq<Sample>)
    requires Knots(px, pTop) && Knots(px, pBottom) && 0.0 < rate
    ensures |top| == |bottom| == |points| == (|px| - 1) * Ceiling(rate) + 1
    ensures points == Zip(top, bottom, |points|)
    ensures exists c: seq<Cubic>, c': seq<Cubic> ::
              && |c| == |c'| == |px| - 1
              && top == CurvePoints(px, pTop, c, rate) && bottom == CurvePoints(px, pBottom, c', rate)
              && forall i: nat :: i < |px| - 1 ==>
                   c[i] == SplineOf(px, pTop, monotonicFit, tension, i)
                   && c'[i] == SplineOf(px, pBottom, monotonicFit, tension, i)
  {
    hide SplineOf, CurvePoints;
    var c, c';
    top, c := CalculateSplineCurvePoints(px, pTop, monotonicFit, tension, rate);
    bottom, c' := CalculateSplineCurvePoints(px, pBottom, monotonicFit, tension, rate);
    CurveIncreases(px, pTop, c, rate);
    CurveIncreases(px, pBottom, c', rate);
    CurvesShareXs(px, pTop, pBottom, c, c', rate);
    assert |top| == |Xs(top)| == |Xs(bottom)| == |bottom|;
    assert SameAbscissae(top, bottom) by {
      assert forall k :: 0 <= k < |top| ==> top[k].0 == Xs(top)[k] && bottom[k].0 == Xs(bottom)[k];
    }
    RunZipsFromStart(top, bottom, 0);
    points := MergeCurves(top, bottom);
  }
}
