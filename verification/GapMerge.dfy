/** The merge loop of the stack and fillbetween plugins on two line series with gaps (jquery.flot.stack.js:80-163,
    jquery.flot.fillbetween.js:88-198): what it emits, and that this samples both series exactly where both
    are drawn. */
module GapMerge {
  import opened Options
  import opened Overlay
  import opened PiecewiseLinear
  import opened Reals
  import opened SeriesPoints
  import opened SeriesValue

  /** An emitted point: the values of this and of the other series at x, and the bottom of the own point it
      is made from. An inserted point stands at a point of the other series alone. */
  datatype Merged = Merged(x: real, p: real, q: real, base: real, inserted: bool)

  type Trace = seq<Option<Merged>>

  /** What the loop emits from here on. Once the other series is exhausted, further points are dropped. */
  function Emitted(points: Points, other: Points, i: nat, j: nat, fromgap: bool): Trace
    requires Separated(points) && Separated(other)
    requires i <= |points| && j <= |other|
    decreases |points| - i + |other| - j
  {
    if i == |points| then []
    else if points[i] == None then [None] + Emitted(points, other, i + 1, j, fromgap)
    else if j == |other| then Emitted(points, other, i + 1, j, fromgap)
    else if other[j] == None then [None] + Emitted(points, other, i, j + 1, true)
    else
      var p, q := points[i].value, other[j].value;
      if p.key == q.key then
        [Some(Merged(p.key, p.acc, q.acc, p.base, false))] + Emitted(points, other, i + 1, j + 1, false)
      else if p.key > q.key then
        (if i > 0 && points[i - 1].Some? then
           [Some(Merged(q.key, Lerp(KnotOf(points[i - 1].value), KnotOf(p), q.key), q.acc, p.base, true))]
         else [])
        + Emitted(points, other, i, j + 1, false)
      else if fromgap then Emitted(points, other, i + 1, j, true)
      else
        var bottom := if j > 0 && other[j - 1].Some? then Lerp(KnotOf(other[j - 1].value), KnotOf(q), p.key) else 0.0;
        [Some(Merged(p.key, p.acc, bottom, p.base, false))] + Emitted(points, other, i + 1, j, false)
  }

  /** The emitted points with the values of this series. */
  function OwnOf(tr: Trace): (points: Points)
    ensures |points| == |tr|
  {
    seq(|tr|, k requires 0 <= k < |tr| => if tr[k].None? then None else Some(Point(tr[k].value.x, tr[k].value.p, 0.0)))
  }

  /** The emitted points with the values of the other series. */
  function OtherOf(tr: Trace): (points: Points)
    ensures |points| == |tr|
  {
    seq(|tr|, k requires 0 <= k < |tr| => if tr[k].None? then None else Some(Point(tr[k].value.x, tr[k].value.q, 0.0)))
  }

  ghost predicate Both(points: Points, other: Points, x: real) {
    At(points, x).Some? && At(other, x).Some?
  }

  /** At x the emitted points draw both series if both are drawn there, and nothing otherwise; they have a
      point there exactly for a point of either. */
  ghost predicate AgreesAt(points: Points, other: Points, tr: Trace, x: real) {
    && At(OwnOf(tr), x) == (if Both(points, other, x) then At(points, x) else None)
    && At(OtherOf(tr), x) == (if Both(points, other, x) then At(other, x) else None)
    && (HasKnot(OwnOf(tr), x) <==> Both(points, other, x) && (HasKnot(points, x) || HasKnot(other, x)))
  }

  /** A single emitted point is right. */
  ghost predicate Right(points: Points, other: Points, m: Merged) {
    && At(points, m.x) == Some(m.p) && At(other, m.x) == Some(m.q)
    && (m.inserted <==> !HasKnot(points, m.x))
    && exists a :: 0 <= a < |points| && points[a].Some? && points[a].value.base == m.base
  }

  ghost predicate AllRight(points: Points, other: Points, tr: Trace) {
    forall k :: 0 <= k < |tr| && tr[k].Some? ==> Right(points, other, tr[k].value)
  }

  /** Both series go on across the point that the loop has reached. */
  ghost predicate Live(points: Points, other: Points, i: nat, j: nat)
    requires i <= |points| && j <= |other|
  {
    0 < i && points[i - 1].Some? && 0 < j && other[j - 1].Some?
  }

  /** Points before i have keys of at most l, the others have greater keys. */
  ghost predicate Parted(points: Points, i: nat, l: real)
    requires i <= |points|
  {
    && (forall a :: 0 <= a < i && points[a].Some? ==> points[a].value.key <= l)
    && (forall a :: i <= a < |points| && points[a].Some? ==> l < points[a].value.key)
  }

  /** The emitted points are sorted and reach to l at most. */
  ghost predicate Reaches(tr: Trace, l: real) {
    && KeysIncrease(OwnOf(tr))
    && forall k :: 0 <= k < |tr| && tr[k].Some? ==> tr[k].value.x <= l
  }

  /** The loop has dealt with everything up to l. */
  ghost predicate MergeInv(points: Points, other: Points, i: nat, j: nat, fromgap: bool, tr: Trace, l: real) {
    && KeysIncrease(points) && KeysIncrease(other)
    && i <= |points| && j <= |other| && Parted(points, i, l) && Parted(other, j, l)
    && (fromgap <==> j == 0 || other[j - 1] == None)
    && Reaches(tr, l) && AllRight(points, other, tr)
    && (j < |other| ==> (Live(points, other, i, j) <==> tr != [] && tr[|tr| - 1].Some?))
    && (j < |other| && tr != [] && tr[|tr| - 1].Some? ==> tr[|tr| - 1].value.x == l)
    && forall x :: x <= l ==> AgreesAt(points, other, tr, x)
  }

  // ---------------------------------------------------------------- one step

  lemma OwnAppend(tr: Trace, e: Option<Merged>)
    ensures OwnOf(tr + [e]) == OwnOf(tr) + [if e.None? then None else Some(Point(e.value.x, e.value.p, 0.0))]
    ensures OtherOf(tr + [e]) == OtherOf(tr) + [if e.None? then None else Some(Point(e.value.x, e.value.q, 0.0))]
  {
  }

  lemma KnotAppend(points: Points, p: Option<Point>, x: real)
    ensures HasKnot(points + [p], x) <==> HasKnot(points, x) || (p.Some? && p.value.key == x)
  {
    var all := points + [p];
    assert all[|points|] == p;
    if HasKnot(points, x) {
      var a :| 0 <= a < |points| && points[a].Some? && points[a].value.key == x;
      assert all[a] == points[a];
    }
  }

  /** A gap changes nothing that is drawn. */
  lemma GapAgrees(points: Points, other: Points, tr: Trace, x: real)
    requires AgreesAt(points, other, tr, x)
    ensures AgreesAt(points, other, tr + [None], x)
  {
    OwnAppend(tr, None);
    AtAppend(OwnOf(tr), None, x);
    AtAppend(OtherOf(tr), None, x);
    KnotAppend(OwnOf(tr), None, x);
    hide At, HasKnot, Both, OwnOf, OtherOf;
  }

  /** A point emitted further on changes nothing before the last one. */
  lemma EarlierAgrees(points: Points, other: Points, tr: Trace, l: real, m: Merged, x: real)
    requires AgreesAt(points, other, tr, x) && x <= l < m.x
    requires tr != [] && tr[|tr| - 1].Some? ==> tr[|tr| - 1].value.x == l
    ensures AgreesAt(points, other, tr + [Some(m)], x)
  {
    OwnAppend(tr, Some(m));
    AtAppend(OwnOf(tr), Some(Point(m.x, m.p, 0.0)), x);
    AtAppend(OtherOf(tr), Some(Point(m.x, m.q, 0.0)), x);
    KnotAppend(OwnOf(tr), Some(Point(m.x, m.p, 0.0)), x);
    hide At, HasKnot, Both;
  }

  /** A part of a line is that line. */
  lemma SubLeg(a: Knot, b: Knot, u: real, v: real, x: real)
    requires a.x != b.x && u != v
    ensures Lerp(Knot(u, Lerp(a, b, u)), Knot(v, Lerp(a, b, v)), x) == Lerp(a, b, x)
  {
    hide Lerp;
    var slope, offset := LineThrough(a, b);
    LerpOnLine(Knot(u, Lerp(a, b, u)), Knot(v, Lerp(a, b, v)), slope, offset, x);
  }

  lemma PartedBelow(points: Points, i: nat, l: real, x: real)
    requires i <= |points| && Parted(points, i, l) && l < x
    ensures KeysBelow(points[..i], x)
  {
  }

  lemma NoKnotBetween(points: Points, i: nat, l: real, x: real)
    requires KeysIncrease(points) && i < |points| && points[i].Some? && Parted(points, i, l)
    requires l < x < points[i].value.key
    ensures !HasKnot(points, x)
  {
  }

  lemma TraceBelow(tr: Trace, l: real, x: real)
    requires Reaches(tr, l) && l < x
    ensures KeysBelow(OwnOf(tr), x) && KeysBelow(OtherOf(tr), x) && !HasKnot(OwnOf(tr), x)
    ensures At(OwnOf(tr), x) == None && At(OtherOf(tr), x) == None
  {
    AtBeyond(OwnOf(tr), x);
    AtBeyond(OtherOf(tr), x);
  }

  /** On a line of one series, what is emitted at both ends of a stretch draws that line in between. */
  lemma StretchDraws(points: Points, i: nat, l: real, p: real, k: real, p': real, x: real)
    requires KeysIncrease(points) && 0 < i < |points| && points[i - 1].Some? && points[i].Some?
    requires points[i - 1].value.key <= l < x < k <= points[i].value.key
    requires At(points, l) == Some(p) && At(points, k) == Some(p')
    ensures At(points, x) == Some(Lerp(Knot(l, p), Knot(k, p'), x))
  {
    hide At, Lerp;
    AtOnLeg(points, i, l);
    AtOnLeg(points, i, k);
    AtOnLeg(points, i, x);
    SubLeg(KnotOf(points[i - 1].value), KnotOf(points[i].value), l, k, x);
  }

  /** What is left undrawn between the points before i and point i, unless a line connects them. */
  lemma NothingDraws(points: Points, i: nat, l: real, x: real)
    requires KeysIncrease(points) && i < |points| && points[i].Some? && Parted(points, i, l)
    requires l < x < points[i].value.key && !(0 < i && points[i - 1].Some?)
    ensures At(points, x) == None
  {
    PartedBelow(points, i, l, x);
    AtOpen(points, i, x);
  }

  /** Between the last emitted point and the next. */
  lemma BetweenAgrees(points: Points, other: Points, i: nat, j: nat, fromgap: bool, tr: Trace, l: real, m: Merged,
                      x: real)
    requires MergeInv(points, other, i, j, fromgap, tr, l)
    requires i < |points| && j < |other| && points[i].Some? && other[j].Some?
    requires l < x < m.x <= points[i].value.key && m.x <= other[j].value.key
    requires Right(points, other, m)
    ensures AgreesAt(points, other, tr + [Some(m)], x)
  {
    hide At, HasKnot, Lerp;
    NoKnotBetween(points, i, l, x);
    NoKnotBetween(other, j, l, x);
    TraceBelow(tr, l, x);
    OwnAppend(tr, Some(m));
    var p, q := Some(Point(m.x, m.p, 0.0)), Some(Point(m.x, m.q, 0.0));
    KnotAppend(OwnOf(tr), p, x);
    AtAppend(OwnOf(tr), p, x);
    AtAppend(OtherOf(tr), q, x);
    if Live(points, other, i, j) {
      var last := tr[|tr| - 1].value;
      assert Right(points, other, last);
      StretchDraws(points, i, l, last.p, m.x, m.p, x);
      StretchDraws(other, j, l, last.q, m.x, m.q, x);
    } else if 0 < i && points[i - 1].Some? {
      NothingDraws(other, j, l, x);
    } else {
      NothingDraws(points, i, l, x);
    }
  }

  lemma HereAgrees(points: Points, other: Points, tr: Trace, m: Merged)
    requires Right(points, other, m) && (HasKnot(points, m.x) || HasKnot(other, m.x))
    ensures AgreesAt(points, other, tr + [Some(m)], m.x)
  {
    OwnAppend(tr, Some(m));
    AtAppend(OwnOf(tr), Some(Point(m.x, m.p, 0.0)), m.x);
    AtAppend(OtherOf(tr), Some(Point(m.x, m.q, 0.0)), m.x);
    KnotAppend(OwnOf(tr), Some(Point(m.x, m.p, 0.0)), m.x);
    hide At, HasKnot;
  }

  /** Nothing is emitted up to k, and nothing is drawn there by both. */
  lemma SkippedAgrees(points: Points, other: Points, i: nat, j: nat, fromgap: bool, tr: Trace, l: real, k: real,
                      x: real)
    requires MergeInv(points, other, i, j, fromgap, tr, l)
    requires i < |points| && j < |other| && points[i].Some? && other[j].Some?
    requires l < x <= k <= points[i].value.key && k <= other[j].value.key
    requires !Live(points, other, i, j) && !Both(points, other, k)
    ensures AgreesAt(points, other, tr, x)
  {
    hide At, HasKnot, Lerp;
    TraceBelow(tr, l, x);
    if x < k {
      if 0 < i && points[i - 1].Some? {
        NothingDraws(other, j, l, x);
      } else {
        NothingDraws(points, i, l, x);
      }
    }
  }

  // ---------------------------------------------------------------- the steps keep the invariant

  lemma PartedOn(points: Points, i: nat, l: real, k: real)
    requires KeysIncrease(points) && i < |points| && points[i].Some? && Parted(points, i, l)
    requires l < k <= points[i].value.key
    ensures k < points[i].value.key ==> Parted(points, i, k)
    ensures k == points[i].value.key ==> Parted(points, i + 1, k)
  {
  }

  lemma ReachesOn(tr: Trace, l: real, m: Merged)
    requires Reaches(tr, l) && l < m.x
    ensures Reaches(tr + [Some(m)], m.x)
  {
    OwnAppend(tr, Some(m));
  }

  /** A point is emitted at the next key k of the two series, which passes the points that have it. */
  lemma EmitKeeps(points: Points, other: Points, i: nat, j: nat, fromgap: bool, tr: Trace, l: real, m: Merged,
                  i': nat, j': nat)
    requires MergeInv(points, other, i, j, fromgap, tr, l)
    requires i < |points| && j < |other| && points[i].Some? && other[j].Some?
    requires m.x <= points[i].value.key && m.x <= other[j].value.key
    requires i' == (if m.x == points[i].value.key then i + 1 else i)
    requires j' == (if m.x == other[j].value.key then j + 1 else j)
    requires i' != i || j' != j
    requires Live(points, other, i', j') && Right(points, other, m)
    ensures MergeInv(points, other, i', j', false, tr + [Some(m)], m.x)
  {
    hide At, HasKnot, Lerp, OwnOf, OtherOf, Right, AgreesAt, KeysIncrease, Reaches;
    var tr' := tr + [Some(m)];
    KnotHere(points, i);
    KnotHere(other, j);
    assert l < m.x;
    PartedOn(points, i, l, m.x);
    PartedOn(other, j, l, m.x);
    ReachesOn(tr, l, m);
    forall x | x <= m.x
      ensures AgreesAt(points, other, tr', x)
    {
      if x == m.x {
        HereAgrees(points, other, tr, m);
      } else if x <= l {
        EarlierAgrees(points, other, tr, l, m, x);
      } else {
        BetweenAgrees(points, other, i, j, fromgap, tr, l, m, x);
      }
    }
  }

  lemma KnotHere(points: Points, i: nat)
    requires i < |points| && points[i].Some?
    ensures HasKnot(points, points[i].value.key)
  {
  }

  /** Nothing is emitted at the next key k, which passes the points that have it. */
  lemma PassKeeps(points: Points, other: Points, i: nat, j: nat, fromgap: bool, tr: Trace, l: real, k: real,
                  i': nat, j': nat, fromgap': bool)
    requires MergeInv(points, other, i, j, fromgap, tr, l)
    requires i < |points| && j < |other| && points[i].Some? && other[j].Some?
    requires k <= points[i].value.key && k <= other[j].value.key
    requires i' == (if k == points[i].value.key then i + 1 else i)
    requires j' == (if k == other[j].value.key then j + 1 else j)
    requires i' != i || j' != j
    requires fromgap' <==> j' == 0 || other[j' - 1] == None
    requires !Live(points, other, i, j) && !Live(points, other, i', j') && !Both(points, other, k)
    ensures MergeInv(points, other, i', j', fromgap', tr, k)
  {
    hide At, HasKnot, Lerp, OwnOf, OtherOf, Right, AgreesAt, KeysIncrease, Both;
    assert l < k;
    PartedOn(points, i, l, k);
    PartedOn(other, j, l, k);
    forall x | x <= k
      ensures AgreesAt(points, other, tr, x)
    {
      if l < x {
        SkippedAgrees(points, other, i, j, fromgap, tr, l, k, x);
      }
    }
  }

  lemma GapKeeps(points: Points, other: Points, i: nat, j: nat, fromgap: bool, tr: Trace, l: real,
                 i': nat, j': nat, fromgap': bool)
    requires MergeInv(points, other, i, j, fromgap, tr, l)
    requires (i' == i + 1 && j' == j && i < |points| && points[i] == None && fromgap' == fromgap)
          || (i' == i && j' == j + 1 && j < |other| && other[j] == None && fromgap')
    ensures MergeInv(points, other, i', j', fromgap', tr + [None], l)
  {
    hide At, HasKnot, Right, AgreesAt;
    OwnAppend(tr, None);
    forall x | x <= l
      ensures AgreesAt(points, other, tr + [None], x)
    {
      GapAgrees(points, other, tr, x);
    }
  }

  /** The other series is exhausted: a further point is dropped. */
  lemma DropKeeps(points: Points, other: Points, i: nat, fromgap: bool, tr: Trace, l: real)
    requires MergeInv(points, other, i, |other|, fromgap, tr, l)
    requires i < |points| && points[i].Some?
    ensures MergeInv(points, other, i + 1, |other|, fromgap, tr, points[i].value.key)
  {
    hide At, HasKnot, Right;
    var k := points[i].value.key;
    PartedOn(points, i, l, k);
    forall x | x <= k
      ensures AgreesAt(points, other, tr, x)
    {
      if l < x {
        BeyondOther(points, other, tr, l, x);
      }
    }
  }

  lemma BeyondOther(points: Points, other: Points, tr: Trace, l: real, x: real)
    requires Parted(other, |other|, l) && Reaches(tr, l) && l < x
    ensures AgreesAt(points, other, tr, x)
  {
    AtBeyond(other, x);
    TraceBelow(tr, l, x);
  }

  // ---------------------------------------------------------------- the whole merge

  /** The emitted points are sorted, each is right, and together they sample both series exactly where both
      are drawn. */
  ghost predicate SamplesBoth(points: Points, other: Points, tr: Trace) {
    && KeysIncrease(OwnOf(tr))
    && AllRight(points, other, tr)
    && forall x :: AgreesAt(points, other, tr, x)
  }

  lemma BeyondOwn(points: Points, other: Points, j: nat, fromgap: bool, tr: Trace, l: real)
    requires MergeInv(points, other, |points|, j, fromgap, tr, l)
    ensures SamplesBoth(points, other, tr)
  {
    forall x
      ensures AgreesAt(points, other, tr, x)
    {
      if l < x {
        AtBeyond(points, x);
        TraceBelow(tr, l, x);
      }
    }
  }

  lemma RightSame(points: Points, other: Points, i: nat, j: nat)
    requires KeysIncrease(points) && KeysIncrease(other) && i < |points| && j < |other|
    requires points[i].Some? && other[j].Some? && points[i].value.key == other[j].value.key
    ensures var p := points[i].value; Right(points, other, Merged(p.key, p.acc, other[j].value.acc, p.base, false))
  {
    AtKnot(points, i);
    AtKnot(other, j);
    KnotHere(points, i);
  }

  lemma RightInserted(points: Points, other: Points, i: nat, j: nat, l: real)
    requires KeysIncrease(points) && KeysIncrease(other) && 0 < i < |points| && j < |other| && Parted(points, i, l)
    requires points[i - 1].Some? && points[i].Some? && other[j].Some? && l < other[j].value.key < points[i].value.key
    ensures var p, q := points[i].value, other[j].value;
            Right(points, other, Merged(q.key, Lerp(KnotOf(points[i - 1].value), KnotOf(p), q.key), q.acc, p.base,
                                        true))
  {
    hide At, Lerp, HasKnot;
    AtOnLeg(points, i, other[j].value.key);
    AtKnot(other, j);
    NoKnotBetween(points, i, l, other[j].value.key);
  }

  lemma RightOwn(points: Points, other: Points, i: nat, j: nat, l: real)
    requires KeysIncrease(points) && KeysIncrease(other) && i < |points| && 0 < j < |other| && Parted(other, j, l)
    requires points[i].Some? && other[j - 1].Some? && other[j].Some? && l < points[i].value.key < other[j].value.key
    ensures var p := points[i].value;
            Right(points, other, Merged(p.key, p.acc, Lerp(KnotOf(other[j - 1].value), KnotOf(other[j].value), p.key),
                                        p.base, false))
  {
    hide At, Lerp, HasKnot;
    AtKnot(points, i);
    AtOnLeg(other, j, points[i].value.key);
    KnotHere(points, i);
  }

  lemma {:induction false} RestSamplesBoth(points: Points, other: Points, i: nat, j: nat, fromgap: bool, tr: Trace,
                                           l: real)
    requires Separated(points) && Separated(other)
    requires MergeInv(points, other, i, j, fromgap, tr, l)
    ensures SamplesBoth(points, other, tr + Emitted(points, other, i, j, fromgap))
    decreases |points| - i + |other| - j
  {
    hide At, HasKnot, Lerp, Right, AgreesAt, OwnOf, OtherOf, Reaches, AllRight, SamplesBoth, KeysIncrease;
    var rest := Emitted(points, other, i, j, fromgap);
    if i == |points| {
      BeyondOwn(points, other, j, fromgap, tr, l);
      assert tr + rest == tr;
    } else if points[i] == None {
      GapKeeps(points, other, i, j, fromgap, tr, l, i + 1, j, fromgap);
      RestSamplesBoth(points, other, i + 1, j, fromgap, tr + [None], l);
      assert tr + [None] + Emitted(points, other, i + 1, j, fromgap) == tr + rest;
    } else if j == |other| {
      DropKeeps(points, other, i, fromgap, tr, l);
      RestSamplesBoth(points, other, i + 1, j, fromgap, tr, points[i].value.key);
    } else if other[j] == None {
      GapKeeps(points, other, i, j, fromgap, tr, l, i, j + 1, true);
      RestSamplesBoth(points, other, i, j + 1, true, tr + [None], l);
      assert tr + [None] + Emitted(points, other, i, j + 1, true) == tr + rest;
    } else {
      var p, q := points[i].value, other[j].value;
      if p.key == q.key {
        RightSame(points, other, i, j);
        EmitAndRest(points, other, i, j, fromgap, tr, l, rest[0].value, i + 1, j + 1);
      } else if p.key > q.key {
        if i > 0 && points[i - 1].Some? {
          RightInserted(points, other, i, j, l);
          EmitAndRest(points, other, i, j, fromgap, tr, l, rest[0].value, i, j + 1);
        } else {
          NothingDraws(points, i, l, q.key);
          PassKeeps(points, other, i, j, fromgap, tr, l, q.key, i, j + 1, false);
          RestSamplesBoth(points, other, i, j + 1, false, tr, q.key);
          assert [] + Emitted(points, other, i, j + 1, false) == Emitted(points, other, i, j + 1, false);
        }
      } else if fromgap {
        NothingDraws(other, j, l, p.key);
        PassKeeps(points, other, i, j, fromgap, tr, l, p.key, i + 1, j, true);
        RestSamplesBoth(points, other, i + 1, j, true, tr, p.key);
      } else {
        RightOwn(points, other, i, j, l);
        EmitAndRest(points, other, i, j, fromgap, tr, l, rest[0].value, i + 1, j);
      }
    }
  }

  lemma EmitAndRest(points: Points, other: Points, i: nat, j: nat, fromgap: bool, tr: Trace, l: real, m: Merged,
                    i': nat, j': nat)
    requires Separated(points) && Separated(other)
    requires MergeInv(points, other, i, j, fromgap, tr, l)
    requires i < |points| && j < |other| && points[i].Some? && other[j].Some?
    requires m.x <= points[i].value.key && m.x <= other[j].value.key
    requires i' == (if m.x == points[i].value.key then i + 1 else i)
    requires j' == (if m.x == other[j].value.key then j + 1 else j)
    requires i' != i || j' != j
    requires Live(points, other, i', j') && Right(points, other, m)
    requires Emitted(points, other, i, j, fromgap) == [Some(m)] + Emitted(points, other, i', j', false)
    ensures SamplesBoth(points, other, tr + Emitted(points, other, i, j, fromgap))
    decreases |points| - i + |other| - j, 0
  {
    hide At, HasKnot, Lerp, Right, AgreesAt, OwnOf, OtherOf, Reaches, AllRight, SamplesBoth, KeysIncrease, Emitted;
    EmitKeeps(points, other, i, j, fromgap, tr, l, m, i', j');
    RestSamplesBoth(points, other, i', j', false, tr + [Some(m)], m.x);
    assert tr + [Some(m)] + Emitted(points, other, i', j', false)
        == tr + ([Some(m)] + Emitted(points, other, i', j', false));
  }

  /** Something below all keys. */
  lemma {:induction false} BelowKeys(points: Points, start: real) returns (l: real)
    ensures l <= start && Parted(points, 0, l)
  {
    l := start;
    if points != [] {
      l := BelowKeys(points[1..], start);
      if points[0].Some? && points[0].value.key <= l {
        l := points[0].value.key - 1.0;
      }
      assert forall a :: 0 < a < |points| ==> points[a] == points[1..][a - 1];
    }
  }

  lemma NothingYet(points: Points, other: Points, l: real)
    requires KeysIncrease(points) && KeysIncrease(other) && Parted(points, 0, l) && Parted(other, 0, l)
    ensures MergeInv(points, other, 0, 0, true, [], l)
  {
    forall x | x <= l
      ensures AgreesAt(points, other, [], x)
    {
      AtBefore(points, x);
    }
  }

  lemma IncreasingIsSeparated(points: Points)
    requires KeysIncrease(points)
    ensures Separated(points)
  {
  }

  /** The merge of two sorted line series, with any gaps, samples both exactly where both are drawn. */
  lemma MergeSamplesBoth(points: Points, other: Points)
    requires KeysIncrease(points) && KeysIncrease(other)
    ensures Separated(points) && Separated(other)
    ensures SamplesBoth(points, other, Emitted(points, other, 0, 0, true))
  {
    IncreasingIsSeparated(points);
    IncreasingIsSeparated(other);
    var l := BelowKeys(points, 0.0);
    l := BelowKeys(other, l);
    NothingYet(points, other, l);
    RestSamplesBoth(points, other, 0, 0, true, [], l);
    assert [] + Emitted(points, other, 0, 0, true) == Emitted(points, other, 0, 0, true);
  }

  // ---------------------------------------------------------------- two gap-free series

  function Xs(tr: Trace): seq<real> {
    seq(|tr|, k requires 0 <= k < |tr| => if tr[k].None? then 0.0 else tr[k].value.x)
  }

  function Ps(tr: Trace): seq<real> {
    seq(|tr|, k requires 0 <= k < |tr| => if tr[k].None? then 0.0 else tr[k].value.p)
  }

  function Qs(tr: Trace): seq<real> {
    seq(|tr|, k requires 0 <= k < |tr| => if tr[k].None? then 0.0 else tr[k].value.q)
  }

  ghost predicate NoGap(tr: Trace) {
    forall k :: 0 <= k < |tr| ==> tr[k].Some?
  }

  lemma {:induction false} EmitsNoGap(points: Points, other: Points, i: nat, j: nat, fromgap: bool)
    requires Separated(points) && Separated(other) && GapFree(points) && GapFree(other)
    requires i <= |points| && j <= |other|
    ensures NoGap(Emitted(points, other, i, j, fromgap))
    decreases |points| - i + |other| - j
  {
    hide Lerp;
    if i < |points| {
      if j == |other| || (points[i].value.key < other[j].value.key && fromgap) {
        EmitsNoGap(points, other, i + 1, j, fromgap);
      } else if points[i].value.key == other[j].value.key {
        EmitsNoGap(points, other, i + 1, j + 1, false);
      } else if points[i].value.key > other[j].value.key {
        EmitsNoGap(points, other, i, j + 1, false);
      } else {
        EmitsNoGap(points, other, i + 1, j, false);
      }
    }
  }

  /** Without gaps, the merge emits one point per knot of either series in the common domain. */
  lemma MergeIsOverlay(points: Points, other: Points)
    requires Clean(points) && Clean(other)
    ensures KeysIncrease(points) && KeysIncrease(other) && Separated(points) && Separated(other)
    ensures var tr := Emitted(points, other, 0, 0, true);
            NoGap(tr) && IsOverlay(Knots(points), Knots(other), Xs(tr), Ps(tr), Qs(tr))
  {
    CleanIsSeparated(points);
    CleanIsSeparated(other);
    AtIsEval(points, 0.0);
    AtIsEval(other, 0.0);
    MergeSamplesBoth(points, other);
    EmitsNoGap(points, other, 0, 0, true);
    SamplesAreOverlay(points, other, Emitted(points, other, 0, 0, true));
  }

  lemma SamplesAreOverlay(points: Points, other: Points, tr: Trace)
    requires Clean(points) && Clean(other) && NoGap(tr) && SamplesBoth(points, other, tr)
    ensures IsOverlay(Knots(points), Knots(other), Xs(tr), Ps(tr), Qs(tr))
  {
    hide At, Eval, Lerp;
    var f, g, xs := Knots(points), Knots(other), Xs(tr);
    forall a, b | 0 <= a < b < |tr|
      ensures xs[a] < xs[b]
    {
      assert OwnOf(tr)[a].value.key < OwnOf(tr)[b].value.key;
    }
    forall k {:trigger xs[k]} | 0 <= k < |tr|
      ensures InDomain(f, xs[k]) && Ps(tr)[k] == Eval(f, xs[k])
      ensures InDomain(g, xs[k]) && Qs(tr)[k] == Eval(g, xs[k])
    {
      assert Right(points, other, tr[k].value);
      AtIsEval(points, xs[k]);
      AtIsEval(other, xs[k]);
    }
    forall v
      ensures v in xs <==> (IsKnot(f, v) || IsKnot(g, v)) && InDomain(f, v) && InDomain(g, v)
    {
      assert AgreesAt(points, other, tr, v);
      AtIsEval(points, v);
      AtIsEval(other, v);
      KnotIsKnot(points, v);
      KnotIsKnot(other, v);
      KnotInXs(tr, v);
    }
  }

  lemma KnotIsKnot(points: Points, v: real)
    requires GapFree(points)
    ensures HasKnot(points, v) <==> IsKnot(Knots(points), v)
  {
    if HasKnot(points, v) {
      var a :| 0 <= a < |points| && points[a].Some? && points[a].value.key == v;
      assert Knots(points)[a].x == v;
    }
    if IsKnot(Knots(points), v) {
      var a :| 0 <= a < |points| && Knots(points)[a].x == v;
      assert points[a].value.key == v;
    }
  }

  lemma KnotInXs(tr: Trace, v: real)
    requires NoGap(tr)
    ensures HasKnot(OwnOf(tr), v) <==> v in Xs(tr)
  {
    if HasKnot(OwnOf(tr), v) {
      var a :| 0 <= a < |tr| && OwnOf(tr)[a].value.key == v;
      assert Xs(tr)[a] == v;
    }
    if v in Xs(tr) {
      var a :| 0 <= a < |tr| && Xs(tr)[a] == v;
      assert OwnOf(tr)[a].value.key == v;
    }
  }

  // ---------------------------------------------------------------- sums

  /** The values of both series added up. */
  function SumOf(tr: Trace): (points: Points)
    ensures |points| == |tr|
  {
    seq(|tr|, k requires 0 <= k < |tr| =>
      if tr[k].None? then None else Some(Point(tr[k].value.x, tr[k].value.p + tr[k].value.q, 0.0)))
  }

  /** Where the sum is drawn both series are, and its value is the sum of theirs. */
  ghost predicate Adds(tr: Trace, x: real) {
    && At(OwnOf(tr), x).Some? == At(OtherOf(tr), x).Some? == At(SumOf(tr), x).Some?
    && (At(SumOf(tr), x).Some? ==> At(SumOf(tr), x).value == At(OwnOf(tr), x).value + At(OtherOf(tr), x).value)
  }

  /** Adding the values adds what is drawn. */
  lemma {:induction false} SumDraws(tr: Trace, x: real)
    ensures Adds(tr, x)
  {
    if tr != [] {
      SumDraws(tr[..|tr| - 1], x);
      SumStep(tr[..|tr| - 1], tr[|tr| - 1], x);
      hide Adds;
      assert tr == tr[..|tr| - 1] + [tr[|tr| - 1]];
    }
  }

  lemma SumStep(tr: Trace, e: Option<Merged>, x: real)
    requires Adds(tr, x)
    ensures Adds(tr + [e], x)
  {
    hide At, Lerp, LastLegOver, OwnOf, OtherOf, SumOf;
    SumAppend(tr, e);
    AtAppend(OwnOf(tr), OwnOf([e])[0], x);
    AtAppend(OtherOf(tr), OtherOf([e])[0], x);
    AtAppend(SumOf(tr), SumOf([e])[0], x);
    LegsAlike(tr, e, x);
    if LastLegOver(OwnOf(tr) + [OwnOf([e])[0]], x) {
      SumOnLeg(tr[|tr| - 1].value, e.value, x);
    }
  }

  lemma LegsAlike(tr: Trace, e: Option<Merged>, x: real)
    ensures LastLegOver(OwnOf(tr) + [OwnOf([e])[0]], x) == LastLegOver(OtherOf(tr) + [OtherOf([e])[0]], x)
         == LastLegOver(SumOf(tr) + [SumOf([e])[0]], x)
    ensures OwnOf([e])[0] == (if e.None? then None else Some(Point(e.value.x, e.value.p, 0.0)))
    ensures OtherOf([e])[0] == (if e.None? then None else Some(Point(e.value.x, e.value.q, 0.0)))
    ensures SumOf([e])[0] == (if e.None? then None else Some(Point(e.value.x, e.value.p + e.value.q, 0.0)))
    ensures LastLegOver(OwnOf(tr) + [OwnOf([e])[0]], x) ==>
              && tr != [] && tr[|tr| - 1].Some? && e.Some?
              && var a := tr[|tr| - 1].value;
              && a.x < x < e.value.x
              && OwnOf(tr)[|tr| - 1] == Some(Point(a.x, a.p, 0.0))
              && OtherOf(tr)[|tr| - 1] == Some(Point(a.x, a.q, 0.0))
              && SumOf(tr)[|tr| - 1] == Some(Point(a.x, a.p + a.q, 0.0))
  {
  }

  lemma SumAppend(tr: Trace, e: Option<Merged>)
    ensures OwnOf(tr + [e]) == OwnOf(tr) + [OwnOf([e])[0]]
    ensures OtherOf(tr + [e]) == OtherOf(tr) + [OtherOf([e])[0]]
    ensures SumOf(tr + [e]) == SumOf(tr) + [SumOf([e])[0]]
  {
  }

  lemma SumOnLeg(a: Merged, b: Merged, x: real)
    requires a.x < x < b.x
    ensures Lerp(Knot(a.x, a.p + a.q), Knot(b.x, b.p + b.q), x)
         == Lerp(Knot(a.x, a.p), Knot(b.x, b.p), x) + Lerp(Knot(a.x, a.q), Knot(b.x, b.q), x)
  {
    var d, u := a.x - b.x, x - b.x;
    QuotientTimes((a.p - b.p) * u, d);
    QuotientTimes((a.q - b.q) * u, d);
    assert (a.p - b.p) * u + (a.q - b.q) * u == ((a.p + a.q) - (b.p + b.q)) * u;
    QuotientIs((a.p - b.p) * u / d + (a.q - b.q) * u / d, d, ((a.p + a.q) - (b.p + b.q)) * u);
  }

  /** The sum of two series where both are drawn. */
  ghost function SumAt(points: Points, other: Points, x: real): Option<real> {
    if Both(points, other, x) then Some(At(points, x).value + At(other, x).value) else None
  }

  lemma BothAllRight(points: Points, other: Points, tr: Trace)
    requires SamplesBoth(points, other, tr)
    ensures AllRight(points, other, tr)
  {
  }
}
