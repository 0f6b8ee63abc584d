/** What the stack plugin means: each output is a sum of piecewise-linear functions, and the series of a
    stack group come out as the partial sums of the group. */
module StackGroup {
  import opened BarMerge
  import opened GapMerge
  import opened Options
  import opened Overlay
  import opened PiecewiseLinear
  import opened SeriesPoints
  import opened SeriesValue
  import opened Stack

  /** A gap-free line series put on another becomes their sum, on exactly the common domain; fill bottoms
      that were zero become the lower series. */
  lemma StackedIsSum(points: Points, other: Points, withbottom: bool, xs: seq<real>, ps: seq<real>, qs: seq<real>,
                     newpoints: Points)
    requires Clean(points) && Clean(other)
    requires IsOverlay(Knots(points), Knots(other), xs, ps, qs)
    requires Stacked(points, withbottom, false, xs, ps, qs, newpoints)
    ensures Clean(newpoints)
    ensures forall x :: InDomain(Knots(newpoints), x) <==> InDomain(Knots(points), x) && InDomain(Knots(other), x)
    ensures forall x :: InDomain(Knots(newpoints), x) ==>
              Eval(Knots(newpoints), x) == Eval(Knots(points), x) + Eval(Knots(other), x)
    ensures withbottom && (forall a :: 0 <= a < |points| ==> points[a].value.base == 0.0) ==>
              forall k {:trigger newpoints[k]} :: 0 <= k < |newpoints| ==>
                && InDomain(Knots(other), newpoints[k].value.key)
                && newpoints[k].value.base == Eval(Knots(other), newpoints[k].value.key)
  {
    hide Eval;
    assert Knots(newpoints) == Polyline(xs, Plus(ps, qs)) by {
      assert GapFree(newpoints);
      forall k | 0 <= k < |xs|
        ensures Knots(newpoints)[k] == Polyline(xs, Plus(ps, qs))[k]
      {
        assert StackedAt(points, withbottom, false, xs[k], ps[k], qs[k], newpoints[k]);
      }
    }
    forall x
      ensures InDomain(Knots(newpoints), x) <==> InDomain(Knots(points), x) && InDomain(Knots(other), x)
      ensures InDomain(Knots(newpoints), x) ==>
                Eval(Knots(newpoints), x) == Eval(Knots(points), x) + Eval(Knots(other), x)
    {
      OverlayDraws(Knots(points), Knots(other), xs, ps, qs, x);
    }
    if withbottom && forall a :: 0 <= a < |points| ==> points[a].value.base == 0.0 {
      forall k | 0 <= k < |newpoints|
        ensures InDomain(Knots(other), newpoints[k].value.key)
        ensures newpoints[k].value.base == Eval(Knots(other), newpoints[k].value.key)
      {
        assert StackedAt(points, withbottom, false, xs[k], ps[k], qs[k], newpoints[k]);
        assert newpoints[k].value.key == xs[k];
      }
    }
  }

  /** Horizontally, a line series is stacked correctly exactly when every point that has to be inserted
      for the lower series happens to have equal coordinates; in particular when the lower series has no
      knot of its own in the common domain. */
  lemma HorizontalStacksExactlyWhen(points: Points, other: Points, withbottom: bool,
                                    xs: seq<real>, ps: seq<real>, qs: seq<real>, newpoints: Points)
    requires Clean(points) && Clean(other)
    requires IsOverlay(Knots(points), Knots(other), xs, ps, qs)
    requires Stacked(points, withbottom, true, xs, ps, qs, newpoints)
    ensures Stacked(points, withbottom, false, xs, ps, qs, newpoints) <==>
              forall k {:trigger xs[k]} :: 0 <= k < |xs| && !IsKnot(Knots(points), xs[k]) ==>
                Eval(Knots(points), xs[k]) + Eval(Knots(other), xs[k]) == xs[k]
  {
    hide Eval;
    forall k | 0 <= k < |xs|
      ensures StackedAt(points, withbottom, false, xs[k], ps[k], qs[k], newpoints[k]) <==>
                (!IsKnot(Knots(points), xs[k]) ==> ps[k] + qs[k] == xs[k])
    {
      assert StackedAt(points, withbottom, true, xs[k], ps[k], qs[k], newpoints[k]);
    }
  }

  lemma ExampleOverlay(f: seq<Knot>, g: seq<Knot>)
    requires f == [Knot(0.0, 0.0), Knot(2.0, 0.0)]
    requires g == [Knot(0.0, 5.0), Knot(1.0, 5.0), Knot(2.0, 5.0)]
    ensures Increasing(f) && Increasing(g)
    ensures IsOverlay(f, g, [0.0, 1.0, 2.0], [0.0, 0.0, 0.0], [5.0, 5.0, 5.0])
    ensures InDomain(f, 1.0) && Eval(f, 1.0) == 0.0 && InDomain(g, 1.0) && Eval(g, 1.0) == 5.0
    ensures !IsKnot(f, 1.0)
  {
    hide Eval, Lerp;
    var xs := [0.0, 1.0, 2.0];
    EvalOnSegment(f, 0, 1.0);
    LerpOnLine(f[0], f[1], 0.0, 0.0, 1.0);
    EvalAtKnot(f, 0);
    EvalAtKnot(f, 1);
    EvalAtKnot(g, 0);
    EvalAtKnot(g, 1);
    EvalAtKnot(g, 2);
    assert xs[0] in xs && xs[1] in xs && xs[2] in xs;
    assert g[0].x == 0.0 && g[1].x == 1.0 && g[2].x == 2.0;
    assert IsKnot(g, 0.0) && IsKnot(g, 1.0) && IsKnot(g, 2.0);
  }

  /** A horizontal stack that comes out wrong: the lower series has a knot of its own at key 1. */
  lemma HorizontalStackCanFail(newpoints: Points)
    ensures var points := [Some(Point(0.0, 0.0, 0.0)), Some(Point(2.0, 0.0, 0.0))];
            var other := [Some(Point(0.0, 5.0, 0.0)), Some(Point(1.0, 5.0, 0.0)), Some(Point(2.0, 5.0, 0.0))];
            var xs, ps, qs := [0.0, 1.0, 2.0], [0.0, 0.0, 0.0], [5.0, 5.0, 5.0];
            && Clean(points) && Clean(other) && IsOverlay(Knots(points), Knots(other), xs, ps, qs)
            && !(Stacked(points, false, true, xs, ps, qs, newpoints)
                 && Stacked(points, false, false, xs, ps, qs, newpoints))
  {
    hide Eval, IsOverlay, StackedAt;
    var points := [Some(Point(0.0, 0.0, 0.0)), Some(Point(2.0, 0.0, 0.0))];
    var other := [Some(Point(0.0, 5.0, 0.0)), Some(Point(1.0, 5.0, 0.0)), Some(Point(2.0, 5.0, 0.0))];
    var xs, ps, qs := [0.0, 1.0, 2.0], [0.0, 0.0, 0.0], [5.0, 5.0, 5.0];
    assert Knots(points) == [Knot(0.0, 0.0), Knot(2.0, 0.0)];
    assert Knots(other) == [Knot(0.0, 5.0), Knot(1.0, 5.0), Knot(2.0, 5.0)];
    ExampleOverlay(Knots(points), Knots(other));
    if Stacked(points, false, true, xs, ps, qs, newpoints) {
      HorizontalStacksExactlyWhen(points, other, false, xs, ps, qs, newpoints);
      assert xs[1] == 1.0;
    }
  }

  // ---------------------------------------------------------------- all series of a plot

  /** `stack` is the stack key; None is null or false. A series is drawn with lines, or else as bars. */
  datatype Series = Series(stack: Option<string>, points: Points, withlines: bool, withbottom: bool)

  predicate SameStack(series: seq<Series>, m: int, k: int)
    requires 0 <= m < |series| && 0 <= k < |series|
  {
    series[k].stack.Some? && series[m].stack == series[k].stack
  }

  /** The last of the first n series that is in the stack of series k. */
  function Previous(series: seq<Series>, k: nat, n: nat): (m: Option<nat>)
    requires n <= k < |series|
    ensures m.None? ==> forall c :: 0 <= c < n ==> !SameStack(series, c, k)
    ensures m.Some? ==> m.value < n && SameStack(series, m.value, k)
                        && forall c :: m.value < c < n ==> !SameStack(series, c, k)
  {
    if n == 0 then None else if SameStack(series, n - 1, k) then Some(n - 1) else Previous(series, k, n - 1)
  }

  /** The last series before k in its stack. */
  method FindMatchingSeries(series: seq<Series>, k: nat) returns (res: Option<nat>)
    requires k < |series| && series[k].stack.Some?
    ensures res == Previous(series, k, k)
    ensures res.None? ==> forall m :: 0 <= m < k ==> !SameStack(series, m, k)
    ensures res.Some? ==> res.value < k && SameStack(series, res.value, k)
                          && forall m :: res.value < m < k ==> !SameStack(series, m, k)
  {
    res := None;
    var i := 0;
    while i < |series|
      invariant i <= k
      invariant res == Previous(series, k, i)
    {
      if i == k {
        break;
      }
      if series[i].stack == series[k].stack {
        res := Some(i);
      }
      i := i + 1;
    }
  }

  /** Every stacked series is sorted; gaps are welcome, and other series may be anything. */
  ghost predicate SortedStacks(series: seq<Series>) {
    forall k {:trigger series[k]} :: 0 <= k < |series| && series[k].stack.Some? ==> KeysIncrease(series[k].points)
  }

  /** What the hook makes of one series whose predecessor in the stack already is `lower`. */
  ghost predicate StackedOn(s: Series, lower: Points, out: Points) {
    if s.withlines then StacksTo(s.points, lower, s.withbottom, out)
    else NonGaps(out) == AllRaised(BarsOf(s.points, lower), s.withbottom)
  }

  /** Series k comes out stacked on what its predecessor came out as. */
  ghost predicate InTurn(series: seq<Series>, result: seq<Points>, k: nat)
    requires |result| <= |series| && k < |result|
  {
    && (series[k].stack.Some? ==> KeysIncrease(result[k]))
    && match Previous(series, k, k)
       case None => result[k] == series[k].points
       case Some(m) => StackedOn(series[k], result[m], result[k])
  }

  /** All members of the stack of series k, up to it, are drawn with lines. */
  ghost predicate LineStack(series: seq<Series>, k: nat)
    requires k < |series|
  {
    series[k].stack.Some? && forall m :: 0 <= m <= k && SameStack(series, m, k) ==> series[m].withlines
  }

  /** The sum at x of the first n series that share the stack of series k, if all of them are drawn there. */
  ghost function GroupAt(series: seq<Series>, k: nat, n: nat, x: real): Option<real>
    requires k < |series| && n <= |series|
  {
    if n == 0 then Some(0.0)
    else
      var before := GroupAt(series, k, n - 1, x);
      if !SameStack(series, n - 1, k) then before
      else if before.Some? && At(series[n - 1].points, x).Some? then
        Some(before.value + At(series[n - 1].points, x).value)
      else None
  }

  /** Series without a match in between contribute nothing. */
  lemma {:induction false} GroupSkips(series: seq<Series>, k: nat, m: nat, n: nat, x: real)
    requires k < |series| && m <= n <= |series|
    requires forall c :: m <= c < n ==> !SameStack(series, c, k)
    ensures GroupAt(series, k, n, x) == GroupAt(series, k, m, x)
    decreases n
  {
    if m < n {
      GroupSkips(series, k, m, n - 1, x);
    }
  }

  /** Series k and an earlier member of its stack see the same group. */
  lemma {:induction false} GroupShared(series: seq<Series>, k: nat, k': nat, n: nat, x: real)
    requires k < |series| && k' < |series| && n <= |series| && SameStack(series, k', k)
    ensures GroupAt(series, k, n, x) == GroupAt(series, k', n, x)
  {
    if n > 0 {
      assert SameStack(series, n - 1, k) <==> SameStack(series, n - 1, k');
      GroupShared(series, k, k', n - 1, x);
    }
  }

  /** Output k is sorted and draws, exactly where all of them are drawn, the sum of the members of its stack
      up to and including k; where a fill started from zero, its bottom now draws the sum without k. */
  ghost predicate IsPartialSum(series: seq<Series>, k: nat, out: Points)
    requires k < |series|
  {
    && KeysIncrease(out)
    && (forall x :: At(out, x) == GroupAt(series, k, k + 1, x))
    && (series[k].withbottom && BasesAreZero(series[k].points) ==> forall x :: BottomFits(series, k, out, x))
  }

  ghost predicate BottomFits(series: seq<Series>, k: nat, out: Points, x: real)
    requires k < |series|
  {
    At(BottomsOf(out), x) == if GroupAt(series, k, k + 1, x).Some? then GroupAt(series, k, k, x) else None
  }

  lemma FirstOfGroup(series: seq<Series>, k: nat)
    requires k < |series| && SortedStacks(series) && series[k].stack.Some?
    requires forall m :: 0 <= m < k ==> !SameStack(series, m, k)
    ensures IsPartialSum(series, k, series[k].points)
  {
    hide At, KeysIncrease, BottomsOf;
    var points := series[k].points;
    forall x
      ensures At(points, x) == GroupAt(series, k, k + 1, x)
      ensures BasesAreZero(points) ==> BottomFits(series, k, points, x)
    {
      GroupSkips(series, k, 0, k, x);
      if BasesAreZero(points) {
        ZeroBottoms(points, x);
      }
    }
  }

  lemma {:induction false} ZeroBottoms(points: Points, x: real)
    requires BasesAreZero(points)
    ensures At(BottomsOf(points), x) == if At(points, x).Some? then Some(0.0) else None
  {
    var bottoms := BottomsOf(points);
    if points != [] {
      var n := |points| - 1;
      assert bottoms[..n] == BottomsOf(points[..n]);
      ZeroBottoms(points[..n], x);
      if LastLegOver(bottoms, x) {
        LerpOnLine(KnotOf(bottoms[n - 1].value), KnotOf(bottoms[n].value), 0.0, 0.0, x);
      }
    }
  }

  /** Stacking on the previous member of the group turns a partial sum into the next. */
  lemma NextOfGroup(series: seq<Series>, k: nat, m: nat, lower: Points, out: Points)
    requires k < |series| && series[k].stack.Some?
    requires m < k && SameStack(series, m, k)
    requires forall c :: m < c < k ==> !SameStack(series, c, k)
    requires IsPartialSum(series, m, lower)
    requires StacksTo(series[k].points, lower, series[k].withbottom, out)
    ensures IsPartialSum(series, k, out)
  {
    hide At, KeysIncrease, HasKnot, BasesAreZero, BottomsOf;
    forall x
      ensures At(out, x) == GroupAt(series, k, k + 1, x)
      ensures series[k].withbottom && BasesAreZero(series[k].points) ==> BottomFits(series, k, out, x)
    {
      GroupShared(series, k, m, m + 1, x);
      GroupSkips(series, k, m + 1, k, x);
      assert At(lower, x) == GroupAt(series, m, m + 1, x);
      assert At(out, x) == SumAt(series[k].points, lower, x);
    }
  }

  /** In a stack of lines every member comes out as the sum of the stack up to it. */
  lemma {:induction false} LineStackIsSum(series: seq<Series>, result: seq<Points>, k: nat)
    requires |result| == |series| && k < |series| && SortedStacks(series) && LineStack(series, k)
    requires forall c: nat :: c <= k ==> InTurn(series, result, c)
    ensures IsPartialSum(series, k, result[k])
    decreases k
  {
    hide IsPartialSum, KeysIncrease, StacksTo;
    assert InTurn(series, result, k);
    match Previous(series, k, k)
    case None => FirstOfGroup(series, k);
    case Some(m) =>
      LineStackIsSum(series, result, m);
      NextOfGroup(series, k, m, result[m], result[k]);
  }

  /** The hook runs over the series in order; a series finds the already stacked points of its predecessor. */
  method StackAll(series: seq<Series>) returns (result: seq<Points>)
    requires SortedStacks(series)
    ensures |result| == |series|
    ensures forall k: nat :: k < |series| ==> InTurn(series, result, k)
    ensures forall k: nat {:trigger result[k]} :: k < |series| && LineStack(series, k) ==>
        IsPartialSum(series, k, result[k])
    ensures forall k: nat {:trigger result[k]} :: k < |series| && series[k].stack.None? ==>
        result[k] == series[k].points
  {
    hide IsPartialSum, KeysIncrease, StacksTo, Stacked, IsOverlay, NonGaps, Clean, StackedOn, AllRaised, BarsOf;
    result := [];
    for k := 0 to |series|
      invariant |result| == k
      invariant forall m: nat :: m < k ==> InTurn(series, result, m)
    {
      ghost var before := result;
      if series[k].stack.None? {
        result := result + [series[k].points];
      } else {
        assert KeysIncrease(series[k].points);
        var match0 := FindMatchingSeries(series, k);
        if match0.None? {
          result := result + [series[k].points];
        } else {
          var lower := result[match0.value];
          assert InTurn(series, result, match0.value);
          IncreasingIsSeparated(series[k].points);
          IncreasingIsSeparated(lower);
          var out := StackData(series[k].points, lower, series[k].withlines, series[k].withbottom, false);
          StackedIsSorted(series[k], lower, out);
          result := result + [out];
        }
      }
      assert before == result[..k];
      EarlierInTurn(series, before, result);
      assert InTurn(series, result, k);
    }
    forall k: nat {:trigger result[k]} | k < |series|
      ensures LineStack(series, k) ==> IsPartialSum(series, k, result[k])
      ensures series[k].stack.None? ==> result[k] == series[k].points
    {
      assert InTurn(series, result, k);
      if LineStack(series, k) {
        LineStackIsSum(series, result, k);
      }
    }
  }

  lemma EarlierInTurn(series: seq<Series>, before: seq<Points>, result: seq<Points>)
    requires |before| < |result| <= |series| && before == result[..|before|]
    requires forall m: nat :: m < |before| ==> InTurn(series, before, m)
    ensures forall m: nat :: m < |before| ==> InTurn(series, result, m)
  {
    hide StackedOn, KeysIncrease;
    assert forall m :: 0 <= m < |before| ==> before[m] == result[m];
    forall m: nat | m < |before|
      ensures InTurn(series, result, m)
    {
      assert InTurn(series, before, m);
    }
  }

  lemma StackedIsSorted(s: Series, lower: Points, out: Points)
    requires KeysIncrease(s.points)
    requires s.withlines ==> StacksTo(s.points, lower, s.withbottom, out)
    requires !s.withlines ==> NonGaps(out) == AllRaised(BarsOf(s.points, lower), s.withbottom)
    ensures StackedOn(s, lower, out) && KeysIncrease(out)
  {
    if !s.withlines {
      SameKeys(s.points, lower, out);
    }
  }
}
