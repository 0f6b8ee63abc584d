/** The merge loop of the stack and fillbetween plugins on two series drawn without lines, with gaps
    (jquery.flot.stack.js:80-163, jquery.flot.fillbetween.js:88-198): what each bar is put on. */
module BarMerge {
  import opened Options
  import opened Reals
  import opened SeriesPoints
  import opened SeriesValue

  /** A bar and what the loop puts it on; nothing once the other series is exhausted. */
  datatype Bar = Bar(point: Point, bottom: Option<real>)

  type BarTrace = seq<Option<Bar>>

  /** What the loop emits from here on. */
  function EmittedBars(points: Points, other: Points, i: nat, j: nat): BarTrace
    requires i <= |points| && j <= |other|
    decreases |points| - i + |other| - j
  {
    if i == |points| then []
    else if points[i] == None then [None] + EmittedBars(points, other, i + 1, j)
    else if j == |other| then [Some(Bar(points[i].value, None))] + EmittedBars(points, other, i + 1, j)
    else if other[j] == None then [None] + EmittedBars(points, other, i, j + 1)
    else
      var p, q := points[i].value, other[j].value;
      if p.key == q.key then [Some(Bar(p, Some(q.acc)))] + EmittedBars(points, other, i + 1, j + 1)
      else if p.key > q.key then EmittedBars(points, other, i, j + 1)
      else [Some(Bar(p, Some(0.0)))] + EmittedBars(points, other, i + 1, j)
  }

  /** The other series' bar at the key, zero where it has a later bar only, and nothing behind its last. */
  ghost function BottomAt(other: Points, key: real): Option<real> {
    if HasKnot(other, key) then At(other, key)
    else if exists b :: 0 <= b < |other| && other[b].Some? && key < other[b].value.key then Some(0.0)
    else None
  }

  /** Every bar of a series with its bottom, in order. */
  ghost function BarsOf(points: Points, other: Points): seq<Bar> {
    if points == [] then []
    else (if points[0].None? then []
          else [Bar(points[0].value, BottomAt(other, points[0].value.key))]) + BarsOf(points[1..], other)
  }

  /** A list without its gaps. */
  function NonGaps<T>(s: seq<Option<T>>): seq<T> {
    if s == [] then [] else (if s[0].None? then [] else [s[0].value]) + NonGaps(s[1..])
  }

  /** The other series up to j lies before the own points from i on. */
  ghost predicate Passed(points: Points, other: Points, i: nat, j: nat)
    requires i <= |points| && j <= |other|
  {
    forall a, b :: i <= a < |points| && points[a].Some? && 0 <= b < j && other[b].Some? ==>
      other[b].value.key < points[a].value.key
  }

  lemma BottomThere(other: Points, j: nat, key: real)
    requires KeysIncrease(other) && j < |other| && other[j].Some? && other[j].value.key == key
    ensures BottomAt(other, key) == Some(other[j].value.acc)
  {
    AtKnot(other, j);
  }

  lemma BottomMissing(points: Points, other: Points, i: nat, j: nat)
    requires KeysIncrease(other) && i < |points| && j <= |other| && points[i].Some? && Passed(points, other, i, j)
    requires j < |other| ==> other[j].Some? && points[i].value.key < other[j].value.key
    ensures BottomAt(other, points[i].value.key) == if j < |other| then Some(0.0) else None
  {
  }

  /** Every bar of the own series is emitted once, in order, on its bottom. */
  lemma {:induction false} BarsMerge(points: Points, other: Points, i: nat, j: nat)
    requires KeysIncrease(points) && KeysIncrease(other)
    requires i <= |points| && j <= |other| && Passed(points, other, i, j)
    ensures NonGaps(EmittedBars(points, other, i, j)) == BarsOf(points[i..], other)
    decreases |points| - i + |other| - j
  {
    hide BottomAt, KeysIncrease, EmittedBars, NonGaps, BarsOf;
    BarsStep(points, other, i, j);
    if i == |points| {
    } else if points[i] == None {
      BarsMerge(points, other, i + 1, j);
    } else if j < |other| && other[j] == None {
      BarsMerge(points, other, i, j + 1);
    } else if j < |other| && points[i].value.key > other[j].value.key {
      PassedOn(points, other, i, j);
      BarsMerge(points, other, i, j + 1);
    } else if j < |other| && points[i].value.key == other[j].value.key {
      BottomThere(other, j, points[i].value.key);
      PassedBoth(points, other, i, j);
      BarsMerge(points, other, i + 1, j + 1);
    } else {
      BottomMissing(points, other, i, j);
      BarsMerge(points, other, i + 1, j);
    }
  }

  /** One step of the loop and of the list of bars; `rest` is what each goes on with. */
  lemma BarsStep(points: Points, other: Points, i: nat, j: nat)
    requires i <= |points| && j <= |other|
    ensures i == |points| ==> NonGaps(EmittedBars(points, other, i, j)) == [] == BarsOf(points[i..], other)
    ensures i < |points| ==>
              var rest := BarsOf(points[i + 1..], other);
              var emitted := NonGaps(EmittedBars(points, other, i, j));
              && BarsOf(points[i..], other)
              == (if points[i].None? then rest
                  else [Bar(points[i].value, BottomAt(other, points[i].value.key))] + rest)
              && emitted == (
                 if points[i].None? then NonGaps(EmittedBars(points, other, i + 1, j))
                 else if j == |other| then [Bar(points[i].value, None)] + NonGaps(EmittedBars(points, other, i + 1, j))
                 else if other[j].None? || points[i].value.key > other[j].value.key then
                   NonGaps(EmittedBars(points, other, i, j + 1))
                 else if points[i].value.key == other[j].value.key then
                   [Bar(points[i].value, Some(other[j].value.acc))] + NonGaps(EmittedBars(points, other, i + 1, j + 1))
                 else [Bar(points[i].value, Some(0.0))] + NonGaps(EmittedBars(points, other, i + 1, j)))
  {
    hide BottomAt, NonGaps;
    NonGapsNothing<Bar>();
    if i < |points| {
      assert points[i..][1..] == points[i + 1..];
      if points[i].None? {
        NonGapsHead(None, EmittedBars(points, other, i + 1, j));
      } else if j == |other| {
        NonGapsHead(Some(Bar(points[i].value, None)), EmittedBars(points, other, i + 1, j));
      } else if other[j].None? {
        NonGapsHead(None, EmittedBars(points, other, i, j + 1));
      } else if points[i].value.key == other[j].value.key {
        NonGapsHead(Some(Bar(points[i].value, Some(other[j].value.acc))), EmittedBars(points, other, i + 1, j + 1));
      } else if points[i].value.key < other[j].value.key {
        NonGapsHead(Some(Bar(points[i].value, Some(0.0))), EmittedBars(points, other, i + 1, j));
      }
    }
  }

  lemma NonGapsNothing<T>()
    ensures NonGaps<T>([]) == []
  {
  }

  lemma PassedOn(points: Points, other: Points, i: nat, j: nat)
    requires KeysIncrease(points) && i < |points| && j < |other| && points[i].Some? && Passed(points, other, i, j)
    requires other[j].Some? && other[j].value.key < points[i].value.key
    ensures Passed(points, other, i, j + 1)
  {
  }

  lemma PassedBoth(points: Points, other: Points, i: nat, j: nat)
    requires KeysIncrease(points) && i < |points| && j < |other| && points[i].Some? && Passed(points, other, i, j)
    requires other[j].Some? && other[j].value.key == points[i].value.key
    ensures Passed(points, other, i + 1, j + 1)
  {
  }

  lemma NonGapsHead<T>(head: Option<T>, tail: seq<Option<T>>)
    ensures NonGaps([head] + tail) == (if head.None? then [] else [head.value]) + NonGaps(tail)
  {
    assert ([head] + tail)[1..] == tail;
  }

  lemma {:induction false} EmitsEveryBar(points: Points, other: Points, i: nat, j: nat)
    requires GapFree(points) && GapFree(other) && i <= |points| && j <= |other|
    ensures forall k :: 0 <= k < |EmittedBars(points, other, i, j)| ==> EmittedBars(points, other, i, j)[k].Some?
    decreases |points| - i + |other| - j
  {
    if i < |points| {
      if j == |other| || points[i].value.key < other[j].value.key {
        EmitsEveryBar(points, other, i + 1, j);
      } else if points[i].value.key == other[j].value.key {
        EmitsEveryBar(points, other, i + 1, j + 1);
      } else {
        EmitsEveryBar(points, other, i, j + 1);
      }
    }
  }

  lemma {:induction false} NonGapsOfFree<T>(s: seq<Option<T>>)
    requires forall k :: 0 <= k < |s| ==> s[k].Some?
    ensures |NonGaps(s)| == |s| && forall k :: 0 <= k < |s| ==> s[k] == Some(NonGaps(s)[k])
  {
    if s != [] {
      NonGapsOfFree(s[1..]);
    }
  }

  lemma {:induction false} BarsOfFree(points: Points, other: Points)
    requires GapFree(points)
    ensures |BarsOf(points, other)| == |points|
    ensures forall k :: 0 <= k < |points| ==>
              BarsOf(points, other)[k] == Bar(points[k].value, BottomAt(other, points[k].value.key))
  {
    hide BottomAt;
    if points != [] {
      BarsOfFree(points[1..], other);
    }
  }

  lemma NonePassed(points: Points, other: Points)
    ensures Passed(points, other, 0, 0)
  {
  }

  // ---------------------------------------------------------------- bars as a list

  /** The keys of the points of a series. */
  ghost function Keys(points: Points): seq<real> {
    if points == [] then [] else (if points[0].None? then [] else [points[0].value.key]) + Keys(points[1..])
  }

  lemma {:induction false} KeysOfNonGaps(points: Points)
    ensures |Keys(points)| == |NonGaps(points)|
    ensures forall k :: 0 <= k < |Keys(points)| ==> Keys(points)[k] == NonGaps(points)[k].key
  {
    if points != [] {
      KeysOfNonGaps(points[1..]);
    }
  }

  lemma KnotTail(points: Points, x: real)
    requires points != []
    ensures HasKnot(points, x) <==> (points[0].Some? && points[0].value.key == x) || HasKnot(points[1..], x)
  {
    if HasKnot(points, x) {
      var a :| 0 <= a < |points| && points[a].Some? && points[a].value.key == x;
      assert a > 0 ==> points[1..][a - 1] == points[a];
    }
    if HasKnot(points[1..], x) {
      var a :| 0 <= a < |points| - 1 && points[1..][a].Some? && points[1..][a].value.key == x;
      assert points[a + 1] == points[1..][a];
    }
  }

  lemma {:induction false} KnotIsKey(points: Points, x: real)
    ensures HasKnot(points, x) <==> x in Keys(points)
  {
    if points != [] {
      KnotIsKey(points[1..], x);
      KnotTail(points, x);
      hide HasKnot;
    }
  }

  lemma SortedTail(points: Points)
    requires points != []
    ensures KeysIncrease(points)
       <==> KeysIncrease(points[1..])
            && (points[0].Some? ==> forall x :: HasKnot(points[1..], x) ==> points[0].value.key < x)
  {
    var rest := points[1..];
    forall a | 0 <= a < |rest|
      ensures rest[a] == points[a + 1]
    {
    }
    if KeysIncrease(rest) && (points[0].Some? ==> forall x :: HasKnot(rest, x) ==> points[0].value.key < x) {
      forall a, b | 0 <= a < b < |points| && points[a].Some? && points[b].Some?
        ensures points[a].value.key < points[b].value.key
      {
        assert rest[b - 1] == points[b];
        if a == 0 {
          assert HasKnot(rest, points[b].value.key);
        } else {
          assert rest[a - 1] == points[a];
        }
      }
    }
  }

  lemma IncreasingTail(x: real, xs: seq<real>)
    ensures StrictlyIncreasing([x] + xs) <==> StrictlyIncreasing(xs) && forall v :: v in xs ==> x < v
  {
    var all := [x] + xs;
    if StrictlyIncreasing(all) {
      forall a, b | 0 <= a < b < |xs|
        ensures xs[a] < xs[b]
      {
        assert all[a + 1] == xs[a] && all[b + 1] == xs[b];
      }
      forall v | v in xs
        ensures x < v
      {
        var b :| 0 <= b < |xs| && xs[b] == v;
        assert all[0] == x && all[b + 1] == v;
      }
    }
    if StrictlyIncreasing(xs) && forall v :: v in xs ==> x < v {
      forall a, b | 0 <= a < b < |all|
        ensures all[a] < all[b]
      {
        assert all[b] == xs[b - 1] && all[b] in xs;
        assert a > 0 ==> all[a] == xs[a - 1];
      }
    }
  }

  /** A series is sorted across its gaps exactly when the list of its keys is. */
  lemma {:induction false} SortedKeys(points: Points)
    ensures KeysIncrease(points) <==> StrictlyIncreasing(Keys(points))
  {
    if points != [] {
      var rest := points[1..];
      SortedKeys(rest);
      SortedTail(points);
      forall x
        ensures HasKnot(rest, x) <==> x in Keys(rest)
      {
        KnotIsKey(rest, x);
      }
      if points[0].Some? {
        IncreasingTail(points[0].value.key, Keys(rest));
      } else {
        assert Keys(points) == Keys(rest);
      }
      hide KeysIncrease, StrictlyIncreasing, HasKnot;
    }
  }

  lemma {:induction false} BarsAreNonGaps(points: Points, other: Points)
    ensures |BarsOf(points, other)| == |NonGaps(points)|
    ensures forall k :: 0 <= k < |NonGaps(points)| ==>
              BarsOf(points, other)[k] == Bar(NonGaps(points)[k], BottomAt(other, NonGaps(points)[k].key))
  {
    hide BottomAt;
    if points != [] {
      var bars, ps := BarsOf(points[1..], other), NonGaps(points[1..]);
      BarsAreNonGaps(points[1..], other);
      if points[0].Some? {
        var bar := Bar(points[0].value, BottomAt(other, points[0].value.key));
        assert BarsOf(points, other) == [bar] + bars && NonGaps(points) == [points[0].value] + ps;
        hide BarsOf, NonGaps;
        assert forall k :: 0 < k <= |ps| ==>
            ([bar] + bars)[k] == bars[k - 1] && ([points[0].value] + ps)[k] == ps[k - 1];
      } else {
        assert BarsOf(points, other) == bars && NonGaps(points) == ps;
      }
    }
  }

  /** Bars that come out of a series, in its order, have its keys. */
  lemma SameKeys(points: Points, other: Points, out: Points)
    requires |NonGaps(out)| == |BarsOf(points, other)|
    requires forall k :: 0 <= k < |NonGaps(out)| ==> NonGaps(out)[k].key == BarsOf(points, other)[k].point.key
    ensures Keys(out) == Keys(points)
    ensures KeysIncrease(out) <==> KeysIncrease(points)
    ensures forall x :: HasKnot(out, x) <==> HasKnot(points, x)
  {
    hide NonGaps, BarsOf, Keys, KeysIncrease, HasKnot, BottomAt;
    BarsAreNonGaps(points, other);
    KeysOfNonGaps(points);
    KeysOfNonGaps(out);
    assert Keys(out) == Keys(points);
    SortedKeys(points);
    SortedKeys(out);
    forall x
      ensures HasKnot(out, x) <==> HasKnot(points, x)
    {
      KnotIsKey(points, x);
      KnotIsKey(out, x);
    }
  }

  // ---------------------------------------------------------------- bars at a key

  /** The top of the bar at the key, if the series has one there. */
  ghost function BarAt(points: Points, x: real): Option<real> {
    if HasKnot(points, x) then At(points, x) else None
  }

  /** What a bar at the key is put on. */
  ghost function Below(lower: Points, x: real): real {
    if BarAt(lower, x).Some? then BarAt(lower, x).value else 0.0
  }

  lemma {:induction false} NonGapsMembers<T>(s: seq<Option<T>>, v: T)
    ensures v in NonGaps(s) <==> Some(v) in s
  {
    if s != [] {
      NonGapsMembers(s[1..], v);
      assert s == [s[0]] + s[1..];
    }
  }

  lemma BarHere(points: Points, a: nat)
    requires KeysIncrease(points) && a < |points| && points[a].Some?
    ensures BarAt(points, points[a].value.key) == Some(points[a].value.acc)
  {
    AtKnot(points, a);
    hide At;
  }
}
