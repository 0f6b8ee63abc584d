/** Stacks of bars (jquery.flot.stack.js:44-163): how high each bar is put, and when that is the height of the
    column. */
module BarPile {
  import opened BarMerge
  import opened Options
  import opened SeriesPoints
  import opened SeriesValue
  import opened Stack
  import opened StackGroup

  // ---------------------------------------------------------------- one series on another

  /** Every bar, and no other, is raised by the bar with the same key; so is its bottom. */
  ghost predicate BarsOnto(points: Points, lower: Points, withbottom: bool, out: Points) {
    && KeysIncrease(out)
    && (forall x :: BarAt(out, x)
                 == if BarAt(points, x).Some? then Some(BarAt(points, x).value + Below(lower, x)) else None)
    && forall b {:trigger out[b]} :: 0 <= b < |out| && out[b].Some? ==>
         exists a ::
           0 <= a < |points| && points[a].Some? && RaisedFrom(points[a].value, lower, withbottom, out[b].value)
  }

  ghost predicate RaisedFrom(p: Point, lower: Points, withbottom: bool, out: Point) {
    && out.key == p.key && out.acc == p.acc + Below(lower, p.key)
    && out.base == if withbottom then p.base + Below(lower, p.key) else p.base
  }

  lemma RaisedIsRaised(p: Point, lower: Points, withbottom: bool)
    ensures RaisedFrom(p, lower, withbottom, RaisedBar(Bar(p, BottomAt(lower, p.key)), withbottom))
  {
    hide At, HasKnot;
  }

  lemma OutBar(points: Points, lower: Points, withbottom: bool, out: Points, b: nat) returns (a: nat)
    requires NonGaps(out) == AllRaised(BarsOf(points, lower), withbottom)
    requires b < |out| && out[b].Some?
    ensures a < |points| && points[a].Some? && RaisedFrom(points[a].value, lower, withbottom, out[b].value)
  {
    hide NonGaps, BarsOf, RaisedFrom, RaisedBar, BottomAt;
    BarsAreNonGaps(points, lower);
    NonGapsMembers(out, out[b].value);
    var j :| 0 <= j < |NonGaps(out)| && NonGaps(out)[j] == out[b].value;
    var p := NonGaps(points)[j];
    NonGapsMembers(points, p);
    a :| 0 <= a < |points| && points[a] == Some(p);
    RaisedIsRaised(p, lower, withbottom);
  }

  /** What the plugin makes of bars on anything sorted. */
  lemma BarsAreRaised(points: Points, lower: Points, withbottom: bool, out: Points)
    requires KeysIncrease(points) && NonGaps(out) == AllRaised(BarsOf(points, lower), withbottom)
    ensures BarsOnto(points, lower, withbottom, out)
  {
    hide At, NonGaps, BarsOf, AllRaised;
    SameKeysOut(points, lower, withbottom, out);
    forall b | 0 <= b < |out| && out[b].Some?
      ensures exists a ::
                0 <= a < |points| && points[a].Some? && RaisedFrom(points[a].value, lower, withbottom, out[b].value)
      ensures BarAt(out, out[b].value.key)
           == Some(Below(lower, out[b].value.key) + Below(points, out[b].value.key))
      ensures BarAt(points, out[b].value.key).Some?
    {
      var a := OutBar(points, lower, withbottom, out, b);
      BarHere(points, a);
      BarHere(out, b);
    }
  }

  lemma SameKeysOut(points: Points, lower: Points, withbottom: bool, out: Points)
    requires KeysIncrease(points) && NonGaps(out) == AllRaised(BarsOf(points, lower), withbottom)
    ensures KeysIncrease(out) && forall x :: HasKnot(out, x) <==> HasKnot(points, x)
  {
    hide KeysIncrease, HasKnot, NonGaps, BarsOf;
    SameKeys(points, lower, out);
  }

  // ---------------------------------------------------------------- stacks of bars

  ghost predicate BarStack(series: seq<Series>, k: nat)
    requires k < |series|
  {
    series[k].stack.Some? && forall m :: 0 <= m <= k && SameStack(series, m, k) ==> !series[m].withlines
  }

  /** How high the bar of series k reaches: it stands on that of the series before, if there is one with
      the same key, and otherwise on the ground. */
  ghost function PileAt(series: seq<Series>, k: nat, x: real): Option<real>
    requires k < |series|
    decreases k
  {
    if BarAt(series[k].points, x).None? then None
    else
      var below := match Previous(series, k, k) case None => None case Some(m) => PileAt(series, m, x);
      Some(BarAt(series[k].points, x).value + if below.Some? then below.value else 0.0)
  }

  /** In a stack of bars every bar comes out as high as its pile, its bottom raised by the pile below it. */
  lemma {:induction false} BarStackPiles(series: seq<Series>, result: seq<Points>, k: nat, x: real)
    requires |result| == |series| && k < |series| && SortedStacks(series) && BarStack(series, k)
    requires forall c: nat :: c <= k ==> InTurn(series, result, c)
    ensures BarAt(result[k], x) == PileAt(series, k, x)
    ensures Previous(series, k, k).Some? ==>
              BarsOnto(series[k].points, result[Previous(series, k, k).value], series[k].withbottom, result[k])
    decreases k
  {
    hide BarAt, KeysIncrease, NonGaps, AllRaised, BarsOf;
    assert InTurn(series, result, k);
    match Previous(series, k, k)
    case None =>
    case Some(m) =>
      BarStackPiles(series, result, m, x);
      BarsAreRaised(series[k].points, result[m], series[k].withbottom, result[k]);
  }

  /** The bars at x of the first n series in the stack of series k, on top of each other. */
  ghost function ColumnAt(series: seq<Series>, k: nat, n: nat, x: real): real
    requires k < |series| && n <= |series|
  {
    if n == 0 then 0.0
    else ColumnAt(series, k, n - 1, x) + if SameStack(series, n - 1, k) then Below(series[n - 1].points, x) else 0.0
  }

  lemma {:induction false} ColumnSkips(series: seq<Series>, k: nat, m: nat, n: nat, x: real)
    requires k < |series| && m <= n <= |series|
    requires forall c :: m <= c < n ==> !SameStack(series, c, k)
    ensures ColumnAt(series, k, n, x) == ColumnAt(series, k, m, x)
    decreases n
  {
    hide Below;
    if m < n {
      ColumnSkips(series, k, m, n - 1, x);
    }
  }

  lemma {:induction false} ColumnShared(series: seq<Series>, k: nat, k': nat, n: nat, x: real)
    requires k < |series| && k' < |series| && n <= |series| && SameStack(series, k', k)
    ensures ColumnAt(series, k, n, x) == ColumnAt(series, k', n, x)
  {
    hide Below;
    if n > 0 {
      assert SameStack(series, n - 1, k) <==> SameStack(series, n - 1, k');
      ColumnShared(series, k, k', n - 1, x);
    }
  }

  ghost predicate PositiveBars(series: seq<Series>, k: nat, x: real)
    requires k < |series|
  {
    forall m :: 0 <= m <= k && SameStack(series, m, k) && BarAt(series[m].points, x).Some? ==>
      0.0 < BarAt(series[m].points, x).value
  }

  /** In the stack of series k, no member after one with a bar at x is without. */
  ghost predicate NoHole(series: seq<Series>, k: nat, x: real)
    requires k < |series|
  {
    forall m, n ::
      (0 <= m < n <= k && SameStack(series, m, k) && SameStack(series, n, k) && BarAt(series[m].points, x).Some?) ==>
        BarAt(series[n].points, x).Some?
  }

  lemma {:induction false} ColumnIsNotNegative(series: seq<Series>, k: nat, n: nat, x: real)
    requires n <= k + 1 && k < |series| && PositiveBars(series, k, x)
    ensures 0.0 <= ColumnAt(series, k, n, x)
    ensures 0.0 == ColumnAt(series, k, n, x) <==>
              forall m :: 0 <= m < n && SameStack(series, m, k) ==> BarAt(series[m].points, x).None?
    decreases n
  {
    hide BarAt;
    if n > 0 {
      ColumnIsNotNegative(series, k, n - 1, x);
    }
  }

  /** A bar of positive height stands on the whole column below it exactly when no member of the stack
      between the lowest bar at its key and itself is without a bar there. */
  lemma {:induction false} PileIsColumnExactlyWhen(series: seq<Series>, k: nat, x: real)
    requires k < |series| && series[k].stack.Some? && BarAt(series[k].points, x).Some?
    requires PositiveBars(series, k, x)
    ensures PileAt(series, k, x) == Some(ColumnAt(series, k, k + 1, x)) <==> NoHole(series, k, x)
    decreases k
  {
    hide BarAt;
    match Previous(series, k, k)
    case None =>
      ColumnSkips(series, k, 0, k, x);
    case Some(m) =>
      ColumnSkips(series, k, m + 1, k, x);
      ColumnShared(series, k, m, m + 1, x);
      MembersBelow(series, k, m, x);
      if BarAt(series[m].points, x).Some? {
        PileIsColumnExactlyWhen(series, m, x);
      } else {
        ColumnIsNotNegative(series, m, m + 1, x);
      }
  }

  /** A stack seen from its member before the last. */
  lemma MembersBelow(series: seq<Series>, k: nat, m: nat, x: real)
    requires k < |series| && m < k && SameStack(series, m, k) && BarAt(series[k].points, x).Some?
    requires forall c :: m < c < k ==> !SameStack(series, c, k)
    ensures forall c :: 0 <= c <= m ==> (SameStack(series, c, m) <==> SameStack(series, c, k))
    ensures PositiveBars(series, k, x) ==> PositiveBars(series, m, x)
    ensures BarAt(series[m].points, x).Some? ==> (NoHole(series, k, x) <==> NoHole(series, m, x))
    ensures BarAt(series[m].points, x).None? ==>
              (NoHole(series, k, x) <==>
               forall c :: 0 <= c <= m && SameStack(series, c, m) ==> BarAt(series[c].points, x).None?)
  {
    hide BarAt;
  }

  /** Three series of bars, the second without one at 1: the third stands on the ground there, inside the first. */
  lemma PileCanFail()
    ensures var bar := (x: real, height: real) => Series(Some("a"), [Some(Point(x, height, 0.0))], false, true);
            var series := [bar(1.0, 2.0), bar(3.0, 2.0), bar(1.0, 4.0)];
            PileAt(series, 2, 1.0) == Some(4.0) && ColumnAt(series, 2, 3, 1.0) == 6.0
  {
    var bar := (x: real, height: real) => Series(Some("a"), [Some(Point(x, height, 0.0))], false, true);
    var series := [bar(1.0, 2.0), bar(3.0, 2.0), bar(1.0, 4.0)];
    BarHere(series[0].points, 0);
    BarHere(series[2].points, 0);
    assert BarAt(series[1].points, 1.0) == None;
    hide BarAt;
    assert Previous(series, 2, 2) == Some(1);
    assert ColumnAt(series, 2, 1, 1.0) == 2.0;
    assert ColumnAt(series, 2, 2, 1.0) == 2.0;
  }
}
