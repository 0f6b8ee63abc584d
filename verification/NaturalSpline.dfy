/** The legacy curve of curvedLines.js: a natural cubic spline whose second derivatives are found by an
    in-place tridiagonal sweep, and which is then sampled through a binary search.

    Numbers are exact reals; floating-point rounding is abstracted away. */
module NaturalSpline {
  import opened Options
  import opened Reals

  ghost predicate Interior(x: seq<real>, i: int) {
    0 < i < |x| - 1
  }

  ghost predicate Distinct(x: seq<real>, i: int)
    requires Interior(x, i)
  {
    x[i - 1] != x[i] && x[i] != x[i + 1] && x[i - 1] != x[i + 1]
  }

  /** Around every interior knot the three abscissae differ: no equation of the system divides by zero. */
  ghost predicate Spaced(x: seq<real>) {
    forall i :: Interior(x, i) ==> Distinct(x, i)
  }

  lemma IncreasingIsSpaced(x: seq<real>)
    requires StrictlyIncreasing(x)
    ensures Spaced(x)
  {
  }

  // ---------------------------------------------------------------- the linear system

  /** Jump of the chord slope at interior knot i. */
  ghost function Kink(x: seq<real>, y: seq<real>, i: int): real
    requires |x| == |y| && Interior(x, i) && Distinct(x, i)
  {
    (y[i + 1] - y[i]) / (x[i + 1] - x[i]) - (y[i] - y[i - 1]) / (x[i] - x[i - 1])
  }

  ghost function Weight(x: seq<real>, i: int): real
    requires Interior(x, i) && Distinct(x, i)
  {
    (x[i] - x[i - 1]) / (x[i + 1] - x[i - 1])
  }

  ghost function Rhs(x: seq<real>, y: seq<real>, i: int): real
    requires |x| == |y| && Interior(x, i) && Distinct(x, i)
  {
    6.0 * Kink(x, y, i) / (x[i + 1] - x[i - 1])
  }

  /** Equation i of the natural-spline system, for the unknown second derivatives m. */
  ghost predicate Row(x: seq<real>, y: seq<real>, m: seq<real>, i: int)
    requires |x| == |y| == |m| && Interior(x, i) && Distinct(x, i)
  {
    Balanced(Weight(x, i), m[i - 1], m[i], m[i + 1], Rhs(x, y, i))
  }

  ghost predicate Balanced(s: real, before: real, here: real, after: real, r: real) {
    s * before + 2.0 * here + (1.0 - s) * after == r
  }

  ghost predicate SolvesSystem(x: seq<real>, y: seq<real>, m: seq<real>) {
    && 0 < |x| == |y| == |m|
    && Spaced(x)
    && m[0] == 0.0 && m[|m| - 1] == 0.0
    && forall i :: Interior(x, i) ==> Row(x, y, m, i)
  }

  lemma WeightBounds(x: seq<real>, i: int)
    requires StrictlyIncreasing(x) && Interior(x, i)
    ensures Spaced(x)
    ensures 0.0 < Weight(x, i) < 1.0
  {
    IncreasingIsSpaced(x);
    var u, d := x[i] - x[i - 1], x[i + 1] - x[i - 1];
    assert 0.0 < u < d;
    QuotientInUnit(u, d);
  }

  /** The pivot of a forward step stays above one, and the new coefficient stays in (-1, 0]. */
  lemma PivotBounds(s: real, c: real, p: real)
    requires 0.0 < s < 1.0 && -1.0 < c <= 0.0
    requires p == PivotOf(s, c)
    ensures 1.0 < p <= 2.0
    ensures -1.0 < (s - 1.0) / p <= 0.0
  {
  }

  /** The divisor of a forward step. */
  function PivotOf(s: real, c: real): real {
    s * c + 2.0
  }

  /** One equation after elimination of the unknown before it. */
  ghost predicate EliminatedRow(s: real, r: real, cPrev: real, dPrev: real, c: real, d: real) {
    var p := PivotOf(s, cPrev);
    && p != 0.0
    && c * p == s - 1.0
    && d * p == r - s * dPrev
  }

  /** An unknown, from its eliminated coefficients and the unknown after it. */
  function BackStep(c: real, next: real, d: real): real {
    c * next + d
  }

  /** Substituting two neighbouring back-substitution steps into an equation of the system. */
  lemma BackSubstitutionStep(s: real, r: real, cPrev: real, dPrev: real, c: real, d: real,
                             before: real, here: real, after: real)
    requires EliminatedRow(s, r, cPrev, dPrev, c, d)
    requires before == BackStep(cPrev, here, dPrev)
    requires here == BackStep(c, after, d)
    ensures Balanced(s, before, here, after, r)
  {
  }

  // ---------------------------------------------------------------- the in-place sweep

  /** How the source leaves the sweep: with a solution, with its early `return []`, or by a division by
      zero, where JavaScript continues with Infinity or NaN. */
  datatype Outcome = Solved | ReturnsEmpty | NotFinite

  /** What the forward pass has established for rows 1 up to n (exclusive): c and d hold the coefficients. */
  ghost predicate Eliminated(x: seq<real>, y: seq<real>, c: seq<real>, d: seq<real>, n: int) {
    && |x| == |y| == |c| == |d|
    && forall k {:trigger Interior(x, k)} :: Interior(x, k) && k < n ==>
         Distinct(x, k) && EliminatedRow(Weight(x, k), Rhs(x, y, k), c[k - 1], d[k - 1], c[k], d[k])
  }

  lemma SweepSolves(x: seq<real>, y: seq<real>, c: seq<real>, d: seq<real>, m: seq<real>)
    requires 1 <= |x| == |y| == |c| == |d| == |m|
    requires c[0] == 0.0 && d[0] == 0.0
    requires Eliminated(x, y, c, d, |x|)
    requires BackSubstituted(c, d, m)
    ensures SolvesSystem(x, y, m)
  {
    forall i | Interior(x, i)
      ensures Row(x, y, m, i)
    {
      assert m[i - 1] == BackStep(c[i - 1], m[i - 1 + 1], d[i - 1]);
      BackSubstitutionStep(Weight(x, i), Rhs(x, y, i), c[i - 1], d[i - 1], c[i], d[i], m[i - 1], m[i], m[i + 1]);
    }
  }

  /** y2[i] after the forward pass, where the pass gets that far. */
  ghost function Coefficient(x: seq<real>, i: nat): real
    decreases i, 1
  {
    if Interior(x, i) && Distinct(x, i) && Pivot(x, i) != 0.0 then (Weight(x, i) - 1.0) / Pivot(x, i) else 0.0
  }

  ghost function Pivot(x: seq<real>, i: nat): real
    requires Interior(x, i) && Distinct(x, i)
    decreases i, 0
  {
    PivotOf(Weight(x, i), Coefficient(x, i - 1))
  }

  /** The forward step at interior knot i divides by nothing that is zero. */
  ghost predicate RowRuns(x: seq<real>, i: nat)
    requires Interior(x, i)
  {
    Distinct(x, i) && Pivot(x, i) != 0.0
  }

  /** The body of the forward loop for interior knot i, given the coefficients of row i - 1. */
  method ForwardRow(x: array<real>, y: array<real>, i: nat, cPrev: real, dPrev: real)
    returns (outcome: Outcome, c: real, d: real)
    requires x.Length == y.Length && Interior(x[..], i)
    ensures outcome == ReturnsEmpty <==> x[i + 1] == x[i - 1]
    ensures outcome == Solved <==> Distinct(x[..], i) && PivotOf(Weight(x[..], i), cPrev) != 0.0
    ensures outcome == Solved ==>
              EliminatedRow(Weight(x[..], i), Rhs(x[..], y[..], i), cPrev, dPrev, c, d)
    ensures StrictlyIncreasing(x[..]) && -1.0 < cPrev <= 0.0 ==> outcome == Solved && -1.0 < c <= 0.0
  {
    hide PivotOf, EliminatedRow;
    c, d := 0.0, 0.0;
    var width := x[i + 1] - x[i - 1];
    if width == 0.0 {
      return ReturnsEmpty, c, d;
    }
    var s := (x[i] - x[i - 1]) / width;
    var p := PivotOf(s, cPrev);
    assert Distinct(x[..], i) ==> s == Weight(x[..], i);
    if StrictlyIncreasing(x[..]) && -1.0 < cPrev <= 0.0 {
      WeightBounds(x[..], i);
      PivotBounds(s, cPrev, p);
    }
    if p == 0.0 || x[i + 1] == x[i] || x[i] == x[i - 1] {
      return NotFinite, c, d;
    }
    c := (s - 1.0) / p;
    d := (y[i + 1] - y[i]) / (x[i + 1] - x[i]) - (y[i] - y[i - 1]) / (x[i] - x[i - 1]);
    assert d == Kink(x[..], y[..], i);
    d := (6.0 * d / (x[i + 1] - x[i - 1]) - s * dPrev) / p;
    RowEliminated(s, Rhs(x[..], y[..], i), cPrev, dPrev);
    outcome := Solved;
  }

  lemma RowEliminated(s: real, r: real, cPrev: real, dPrev: real)
    requires PivotOf(s, cPrev) != 0.0
    ensures var p := PivotOf(s, cPrev); EliminatedRow(s, r, cPrev, dPrev, (s - 1.0) / p, (r - s * dPrev) / p)
  {
    QuotientTimes(s - 1.0, PivotOf(s, cPrev));
    QuotientTimes(r - s * dPrev, PivotOf(s, cPrev));
  }

  /** m ends in zero, and each unknown before is the back-substitution step from the one after it. */
  ghost predicate BackSubstituted(c: seq<real>, d: seq<real>, m: seq<real>) {
    && 1 <= |c| == |d| == |m|
    && m[|m| - 1] == 0.0
    && forall k {:trigger m[k]} :: 0 <= k < |m| - 1 ==> m[k] == BackStep(c[k], m[k + 1], d[k])
  }

  /** The backward loop: overwrites the coefficients in y2 by the solution. */
  method BackSubstitute(y2: array<real>, delta: array<real>)
    requires 1 <= y2.Length == delta.Length && y2 != delta
    requires y2[y2.Length - 1] == 0.0
    modifies y2
    ensures BackSubstituted(old(y2[..]), delta[..], y2[..])
  {
    var j := y2.Length - 2;
    while j >= 0
      invariant -1 <= j <= y2.Length - 2
      invariant y2[y2.Length - 1] == 0.0
      invariant forall k :: 0 <= k <= j ==> y2[k] == old(y2[k])
      invariant forall k :: j < k < y2.Length - 1 ==> y2[k] == BackStep(old(y2[k]), y2[k + 1], delta[k])
      decreases j
    {
      y2[j] := BackStep(y2[j], y2[j + 1], delta[j]);
      j := j - 1;
    }
  }

  /** The state of the forward pass before row n: whether everything so far is finite, and the coefficients. */
  ghost predicate ForwardPass(x: seq<real>, y: seq<real>, c: seq<real>, d: seq<real>, n: nat, finite: bool) {
    && |x| == |y| == |c| == |d|
    && (forall k: nat {:trigger Interior(x, k)} :: Interior(x, k) && k < n ==> x[k + 1] != x[k - 1])
    && (finite <==> forall k: nat {:trigger RowRuns(x, k)} :: Interior(x, k) && k < n ==> RowRuns(x, k))
    && (finite ==> Eliminated(x, y, c, d, n))
    && (finite ==> forall k: nat {:trigger c[k]} :: k < n && k < |x| - 1 ==> c[k] == Coefficient(x, k))
  }

  lemma ForwardStep(x: seq<real>, y: seq<real>, c: seq<real>, d: seq<real>, n: nat, finite: bool,
                    outcome: Outcome, cn: real, dn: real)
    requires ForwardPass(x, y, c, d, n, finite) && Interior(x, n)
    requires outcome != ReturnsEmpty && x[n + 1] != x[n - 1]
    requires outcome == Solved <==> Distinct(x, n) && PivotOf(Weight(x, n), c[n - 1]) != 0.0
    requires outcome == Solved ==> EliminatedRow(Weight(x, n), Rhs(x, y, n), c[n - 1], d[n - 1], cn, dn)
    ensures ForwardPass(x, y, c[n := cn], d[n := dn], n + 1, finite && outcome == Solved)
  {
    hide Eliminated, EliminatedRow, Rhs, Weight, PivotOf;
    assert finite ==> c[n - 1] == Coefficient(x, n - 1);
    assert finite ==> (outcome == Solved <==> RowRuns(x, n));
    if finite && outcome == Solved {
      EliminatedStep(x, y, c, d, n, cn, dn);
      CoefficientIs(x, n, c[n - 1], cn, Weight(x, n), Rhs(x, y, n), d[n - 1], dn);
    }
  }

  lemma EliminatedStep(x: seq<real>, y: seq<real>, c: seq<real>, d: seq<real>, n: nat, cn: real, dn: real)
    requires Eliminated(x, y, c, d, n) && Interior(x, n) && Distinct(x, n)
    requires EliminatedRow(Weight(x, n), Rhs(x, y, n), c[n - 1], d[n - 1], cn, dn)
    ensures Eliminated(x, y, c[n := cn], d[n := dn], n + 1)
  {
    hide EliminatedRow, Rhs, Weight;
  }

  lemma CoefficientIs(x: seq<real>, n: nat, before: real, here: real, s: real, r: real, dBefore: real, d: real)
    requires Interior(x, n) && Distinct(x, n) && before == Coefficient(x, n - 1) && s == Weight(x, n)
    requires EliminatedRow(s, r, before, dBefore, here, d)
    ensures here == Coefficient(x, n)
  {
    hide Weight, PivotOf;
    QuotientIs(here, Pivot(x, n), s - 1.0);
  }

  /** Increasing abscissae keep every pivot above one. */
  lemma {:induction false} IncreasingRuns(x: seq<real>, i: nat)
    requires StrictlyIncreasing(x) && i < |x|
    ensures -1.0 < Coefficient(x, i) <= 0.0
    ensures Interior(x, i) ==> RowRuns(x, i)
  {
    if Interior(x, i) {
      IncreasingRuns(x, i - 1);
      WeightBounds(x, i);
      PivotBounds(Weight(x, i), Coefficient(x, i - 1), Pivot(x, i));
    }
  }

  /** The forward loop (394-406), which leaves the coefficients in y2 and delta. A later early return is
      found even after an earlier division by zero. */
  method ForwardSweep(x: array<real>, y: array<real>, y2: array<real>, delta: array<real>) returns (outcome: Outcome)
    requires 1 <= x.Length == y.Length == y2.Length == delta.Length
    requires y2 != delta && y2 !in {x, y} && delta !in {x, y}
    requires y2[0] == 0.0 && y2[y2.Length - 1] == 0.0 && delta[0] == 0.0
    modifies y2, delta
    ensures y2[0] == 0.0 && y2[y2.Length - 1] == 0.0 && delta[0] == 0.0
    ensures outcome == ReturnsEmpty ==> exists i: nat :: Interior(x[..], i) && x[i + 1] == x[i - 1]
    ensures outcome != ReturnsEmpty ==> ForwardPass(x[..], y[..], y2[..], delta[..], x.Length, outcome == Solved)
  {
    hide Weight, Rhs, PivotOf, Coefficient, EliminatedRow, ForwardPass, RowRuns, Distinct;
    ghost var xs, ys := x[..], y[..];
    var n := x.Length;
    var i := 1;
    var finite := true;
    NoRows(xs, ys, y2[..], delta[..]);
    while i < n - 1
      invariant 1 <= i && (i < n || n == 1)
      invariant x[..] == xs && y[..] == ys
      invariant y2[0] == 0.0 && delta[0] == 0.0 && y2[n - 1] == 0.0
      invariant ForwardPass(xs, ys, y2[..], delta[..], i, finite)
    {
      var status, ci, di := ForwardRow(x, y, i, y2[i - 1], delta[i - 1]);
      if status == ReturnsEmpty {
        assert Interior(x[..], i);
        return ReturnsEmpty;
      }
      ForwardStep(xs, ys, y2[..], delta[..], i, finite, status, ci, di);
      y2[i], delta[i] := ci, di;
      finite := finite && status == Solved;
      i := i + 1;
    }
    PassDone(xs, ys, y2[..], delta[..], i, finite);
    outcome := if finite then Solved else NotFinite;
  }

  /** The forward/backward sweep. y2 first holds the eliminated coefficients and is then overwritten by
      the solution, as in the source. It returns early exactly when the neighbours of an interior knot
      coincide, and is solved exactly when no row divides by zero. */
  method SolveSecondDerivatives(x: array<real>, y: array<real>) returns (outcome: Outcome, y2: array<real>)
    requires 1 <= x.Length == y.Length
    ensures fresh(y2) && y2.Length == x.Length
    ensures outcome == Solved ==> SolvesSystem(x[..], y[..], y2[..])
    ensures outcome == SweepOutcome(x[..])
    ensures StrictlyIncreasing(x[..]) ==> outcome == Solved
  {
    hide Weight, Rhs, PivotOf, Coefficient, EliminatedRow, SolvesSystem, ForwardPass, RowRuns, Distinct,
         BackSubstituted, Eliminated, SweepOutcome, StrictlyIncreasing;
    var n := x.Length;
    y2 := new real[n];
    var delta := new real[n];
    y2[0] := 0.0;
    y2[n - 1] := 0.0;
    delta[0] := 0.0;
    ghost var xs, ys := x[..], y[..];
    outcome := ForwardSweep(x, y, y2, delta);
    assert x[..] == xs && y[..] == ys;
    SweepDone(xs, ys, y2[..], delta[..], outcome);
    if outcome == Solved {
      ghost var c, d := y2[..], delta[..];
      BackSubstitute(y2, delta);
      SweepSolves(xs, ys, c, d, y2[..]);
    }
  }

  /** How the sweep ends, from the abscissae alone. */
  ghost function SweepOutcome(x: seq<real>): Outcome {
    if exists i: nat :: Interior(x, i) && x[i + 1] == x[i - 1] then ReturnsEmpty
    else if forall i: nat {:trigger RowRuns(x, i)} :: Interior(x, i) ==> RowRuns(x, i) then Solved
    else NotFinite
  }

  lemma SweepDone(x: seq<real>, y: seq<real>, c: seq<real>, d: seq<real>, outcome: Outcome)
    requires outcome == ReturnsEmpty ==> exists i: nat :: Interior(x, i) && x[i + 1] == x[i - 1]
    requires outcome != ReturnsEmpty ==> ForwardPass(x, y, c, d, |x|, outcome == Solved)
    ensures outcome == SweepOutcome(x)
    ensures outcome == Solved ==> Eliminated(x, y, c, d, |x|)
    ensures StrictlyIncreasing(x) ==> outcome == Solved
  {
    if StrictlyIncreasing(x) {
      forall k: nat | Interior(x, k)
        ensures RowRuns(x, k)
      {
        IncreasingRuns(x, k);
      }
    }
  }

  lemma NoRows(x: seq<real>, y: seq<real>, c: seq<real>, d: seq<real>)
    requires 1 <= |x| == |y| == |c| == |d| && c[0] == 0.0
    ensures ForwardPass(x, y, c, d, 1, true)
  {
  }

  lemma PassDone(x: seq<real>, y: seq<real>, c: seq<real>, d: seq<real>, n: nat, finite: bool)
    requires ForwardPass(x, y, c, d, n, finite) && |x| - 1 <= n
    ensures ForwardPass(x, y, c, d, |x|, finite)
  {
  }

  /** The order of the knots is sufficient, not necessary: the sweep runs on knots out of order here. */
  lemma UnorderedCanRun()
    ensures var x := [0.0, 2.0, 1.0];
            !StrictlyIncreasing(x) && SweepOutcome(x) == Solved
  {
    var x := [0.0, 2.0, 1.0];
    assert x[1] > x[2];
    assert Coefficient(x, 0) == 0.0;
    assert RowRuns(x, 1);
  }

  /** A row that divides by zero although all knots are different. */
  lemma PivotCanVanish()
    ensures var x := [0.0, 1.0, 2.0, 1.125];
            Spaced(x) && SweepOutcome(x) == NotFinite
  {
    var x := [0.0, 1.0, 2.0, 1.125];
    assert Coefficient(x, 0) == 0.0;
    QuotientIs(0.5, 2.0, 1.0);
    assert Pivot(x, 1) == 2.0;
    QuotientIs(-0.25, 2.0, -0.5);
    QuotientIs(8.0, 0.125, 1.0);
    assert Interior(x, 2) && Distinct(x, 2) && Pivot(x, 2) == 0.0;
    assert !RowRuns(x, 2);
  }

  // ---------------------------------------------------------------- the system has one solution

  lemma HalfSumBound(u: real, w: real, v: real)
    requires u + 2.0 * v + w == 0.0
    ensures 2.0 * Abs(v) <= Abs(u) + Abs(w)
  {
  }

  /** Diagonal dominance: in a homogeneous equation the later unknown bounds the earlier one. */
  lemma DominatedStep(s: real, u: real, v: real, w: real)
    requires 0.0 < s < 1.0 && Abs(u) <= Abs(v)
    requires s * u + 2.0 * v + (1.0 - s) * w == 0.0
    ensures Abs(v) <= Abs(w)
  {
    var p, q := s * u, (1.0 - s) * w;
    AbsTimes(s, u);
    AbsTimes(1.0 - s, w);
    HalfSumBound(p, q, v);
    DominatedMagnitude(s, Abs(u), Abs(v), Abs(w));
  }

  lemma DominatedMagnitude(s: real, u: real, v: real, w: real)
    requires 0.0 < s < 1.0 && u <= v && 0.0 <= w
    requires 2.0 * v <= s * u + (1.0 - s) * w
    ensures v <= w
  {
    NonnegativeProduct(s, v - u);
    if w < v {
      NonnegativeProduct(1.0 - s, v - w);
    }
  }

  lemma {:induction false} DifferenceGrows(x: seq<real>, y: seq<real>, m: seq<real>, m': seq<real>, i: nat)
    requires StrictlyIncreasing(x) && SolvesSystem(x, y, m) && SolvesSystem(x, y, m')
    requires i < |x| - 1
    ensures Abs(m[i] - m'[i]) <= Abs(m[i + 1] - m'[i + 1])
  {
    if i > 0 {
      DifferenceGrows(x, y, m, m', i - 1);
      assert Interior(x, i) && Row(x, y, m, i) && Row(x, y, m', i);
      WeightBounds(x, i);
      var s := Weight(x, i);
      var u, v, w := m[i - 1] - m'[i - 1], m[i] - m'[i], m[i + 1] - m'[i + 1];
      assert s * u == s * m[i - 1] - s * m'[i - 1];
      assert (1.0 - s) * w == (1.0 - s) * m[i + 1] - (1.0 - s) * m'[i + 1];
      DominatedStep(s, u, v, w);
    }
  }

  lemma {:induction false} DifferenceVanishes(x: seq<real>, y: seq<real>, m: seq<real>, m': seq<real>, i: nat)
    requires StrictlyIncreasing(x) && SolvesSystem(x, y, m) && SolvesSystem(x, y, m')
    requires i < |x|
    ensures m[i] == m'[i]
    decreases |x| - i
  {
    if i < |x| - 1 {
      DifferenceVanishes(x, y, m, m', i + 1);
      DifferenceGrows(x, y, m, m', i);
    }
  }

  /** There is exactly one natural spline, so the sweep computes the second derivatives. */
  lemma SolutionIsUnique(x: seq<real>, y: seq<real>, m: seq<real>, m': seq<real>)
    requires StrictlyIncreasing(x) && SolvesSystem(x, y, m) && SolvesSystem(x, y, m')
    ensures m == m'
  {
    forall i | 0 <= i < |x|
      ensures m[i] == m'[i]
    {
      DifferenceVanishes(x, y, m, m', i);
    }
  }

  // ---------------------------------------------------------------- the cubic on one segment

  /** The data of one segment: abscissae, ordinates and second derivatives at its two ends. */
  datatype Segment = Segment(xl: real, xr: real, yl: real, yr: real, ml: real, mr: real)

  function Value(g: Segment, t: real): real
    requires g.xl != g.xr
  {
    var h := g.xr - g.xl;
    PureValue(g, h, (g.xr - t) / h, (t - g.xl) / h)
  }

  ghost function Slope(g: Segment, t: real): real
    requires g.xl != g.xr
  {
    var h := g.xr - g.xl;
    PureSlope(g, h, (g.xr - t) / h, (t - g.xl) / h, (g.yr - g.yl) / h)
  }

  /** A sixth of the third derivative. */
  ghost function Third(g: Segment): real
    requires g.xl != g.xr
  {
    (g.mr - g.ml) / (6.0 * (g.xr - g.xl))
  }

  ghost function Curvature(g: Segment, t: real): real
    requires g.xl != g.xr
  {
    var h := g.xr - g.xl;
    PureCurvature(g, (g.xr - t) / h, (t - g.xl) / h)
  }

  /** Taylor's formula with nothing left over: Slope and Curvature are the first two derivatives of Value. */
  lemma SegmentTaylor(g: Segment, t: real, e: real)
    requires g.xl != g.xr
    ensures Value(g, t + e) == Value(g, t) + e * Slope(g, t) + e * e * Curvature(g, t) / 2.0
                               + e * e * e * Third(g)
  {
    hide Value, Slope, Curvature, Third, PureValue, PureSlope, PureCurvature;
    var h := g.xr - g.xl;
    var a, b, r, chord := (g.xr - t) / h, (t - g.xl) / h, e / h, (g.yr - g.yl) / h;
    PureForms(g, t + e);
    PureForms(g, t);
    Quotients(g, t, e);
    PureTaylor(g, h, a, b, r, e, Third(g), chord);
    SameTaylor(e, Third(g), Value(g, t + e), Value(g, t), Slope(g, t), Curvature(g, t),
               PureValue(g, h, a - r, b + r), PureValue(g, h, a, b), PureSlope(g, h, a, b, chord),
               PureCurvature(g, a, b));
  }

  lemma SameTaylor(e: real, third: real, v1: real, v: real, s: real, c: real, v1': real, v': real, s': real, c': real)
    requires v1 == v1' && v == v' && s == s' && c == c'
    requires v1' == v' + e * s' + e * e * c' / 2.0 + e * e * e * third
    ensures v1 == v + e * s + e * e * c / 2.0 + e * e * e * third
  {
  }

  lemma Quotients(g: Segment, t: real, e: real)
    requires g.xl != g.xr
    ensures var h := g.xr - g.xl;
            var r := e / h;
            && r * h == e && (g.yr - g.yl) / h * h == g.yr - g.yl && Third(g) * (6.0 * h) == g.mr - g.ml
            && (g.xr - (t + e)) / h == (g.xr - t) / h - r
            && (t + e - g.xl) / h == (t - g.xl) / h + r
  {
    var h := g.xr - g.xl;
    var a, b, r := (g.xr - t) / h, (t - g.xl) / h, e / h;
    QuotientTimes(e, h);
    QuotientTimes(g.yr - g.yl, h);
    QuotientTimes(g.mr - g.ml, 6.0 * h);
    ShiftQuotient(g.xr - t, e, h, a, r);
    ShiftQuotient(t - g.xl, -e, h, b, -r);
  }

  lemma PureForms(g: Segment, t: real)
    requires g.xl != g.xr
    ensures var h := g.xr - g.xl;
            var a, b := (g.xr - t) / h, (t - g.xl) / h;
            && Value(g, t) == PureValue(g, h, a, b)
            && Slope(g, t) == PureSlope(g, h, a, b, (g.yr - g.yl) / h)
            && Curvature(g, t) == PureCurvature(g, a, b)
  {
  }

  function PureValue(g: Segment, h: real, a: real, b: real): real {
    a * g.yl + b * g.yr + ((a * a * a - a) * g.ml + (b * b * b - b) * g.mr) * (h * h) / 6.0
  }

  ghost function PureSlope(g: Segment, h: real, a: real, b: real, chord: real): real {
    chord + ((1.0 - 3.0 * a * a) * g.ml + (3.0 * b * b - 1.0) * g.mr) * h / 6.0
  }

  ghost function PureCurvature(g: Segment, a: real, b: real): real {
    a * g.ml + b * g.mr
  }

  lemma ShiftQuotient(u: real, e: real, h: real, q: real, r: real)
    requires h != 0.0 && q * h == u && r * h == e
    ensures (u - e) / h == q - r
  {
  }

  lemma PureTaylor(g: Segment, h: real, a: real, b: real, r: real, e: real, third: real, chord: real)
    requires r * h == e && chord * h == g.yr - g.yl && third * (6.0 * h) == g.mr - g.ml
    ensures PureValue(g, h, a - r, b + r)
         == PureValue(g, h, a, b) + e * PureSlope(g, h, a, b, chord)
            + e * e * PureCurvature(g, a, b) / 2.0 + e * e * e * third
  {
    assert e * chord == r * (g.yr - g.yl);
    assert e * e * e * third == r * r * r * (h * h) * (g.mr - g.ml) / 6.0 by {
      assert e * e * e * third == r * h * (r * h) * (r * h) * third;
      assert r * h * (r * h) * (r * h) * third == r * r * r * (h * h) * (third * (6.0 * h)) / 6.0;
    }
    assert e * e == r * r * (h * h);
    assert e * h == r * (h * h);
  }

  function SegmentAt(x: seq<real>, y: seq<real>, m: seq<real>, i: nat): Segment
    requires |x| == |y| == |m| && i + 1 < |x|
  {
    Segment(x[i], x[i + 1], y[i], y[i + 1], m[i], m[i + 1])
  }

  lemma EndQuotients(g: Segment)
    requires g.xl != g.xr
    ensures (g.xr - g.xl) / (g.xr - g.xl) == 1.0 && (g.xl - g.xl) / (g.xr - g.xl) == 0.0
    ensures (g.xr - g.xr) / (g.xr - g.xl) == 0.0
  {
  }

  /** The curve passes through both end points of a segment, for whatever second derivatives. */
  lemma Interpolates(g: Segment)
    requires g.xl != g.xr
    ensures Value(g, g.xl) == g.yl && Value(g, g.xr) == g.yr
  {
  }

  lemma SlopesAtEnds(g: Segment)
    requires g.xl != g.xr
    ensures Slope(g, g.xl) == (g.yr - g.yl) / (g.xr - g.xl) - (2.0 * g.ml + g.mr) * (g.xr - g.xl) / 6.0
    ensures Slope(g, g.xr) == (g.yr - g.yl) / (g.xr - g.xl) + (g.ml + 2.0 * g.mr) * (g.xr - g.xl) / 6.0
    ensures Curvature(g, g.xl) == g.ml && Curvature(g, g.xr) == g.mr
  {
    EndQuotients(g);
    assert (1.0 - 3.0 * 1.0 * 1.0) * g.ml + (3.0 * 0.0 * 0.0 - 1.0) * g.mr == -(2.0 * g.ml + g.mr);
    assert (1.0 - 3.0 * 0.0 * 0.0) * g.ml + (3.0 * 1.0 * 1.0 - 1.0) * g.mr == g.ml + 2.0 * g.mr;
  }

  /** At an interior knot the two one-sided slopes agree exactly when equation i of the system holds. */
  lemma SmoothExactlyWhenRow(x: seq<real>, y: seq<real>, m: seq<real>, i: nat)
    requires |x| == |y| == |m| && Interior(x, i) && Distinct(x, i)
    ensures Slope(SegmentAt(x, y, m, i - 1), x[i]) == Slope(SegmentAt(x, y, m, i), x[i]) <==> Row(x, y, m, i)
    ensures Curvature(SegmentAt(x, y, m, i - 1), x[i]) == Curvature(SegmentAt(x, y, m, i), x[i])
  {
    hide Slope, Curvature, Row;
    SlopesJoin(SegmentAt(x, y, m, i - 1), SegmentAt(x, y, m, i));
    RowMeaning(x, y, m, i);
  }

  lemma RowMeaning(x: seq<real>, y: seq<real>, m: seq<real>, i: nat)
    requires |x| == |y| == |m| && Interior(x, i) && Distinct(x, i)
    ensures Row(x, y, m, i)
            <==> (m[i - 1] + 2.0 * m[i]) * (x[i] - x[i - 1]) / 6.0 + (2.0 * m[i] + m[i + 1]) * (x[i + 1] - x[i]) / 6.0
                 == Kink(x, y, i)
  {
  }

  lemma SlopesJoin(g: Segment, g': Segment)
    requires g.xl != g.xr && g.xr == g'.xl && g'.xl != g'.xr && g.mr == g'.ml
    ensures Slope(g, g.xr) == Slope(g', g.xr)
            <==> (g.ml + 2.0 * g.mr) * (g.xr - g.xl) / 6.0 + (2.0 * g.mr + g'.mr) * (g'.xr - g'.xl) / 6.0
                 == (g'.yr - g'.yl) / (g'.xr - g'.xl) - (g.yr - g.yl) / (g.xr - g.xl)
    ensures Curvature(g, g.xr) == Curvature(g', g.xr)
  {
    SlopesAtEnds(g);
    SlopesAtEnds(g');
  }

  /** The whole curve: m solves the system exactly when its ends are natural and every join is smooth. */
  lemma SolvesExactlyWhenSmooth(x: seq<real>, y: seq<real>, m: seq<real>)
    requires 0 < |x| == |y| == |m| && StrictlyIncreasing(x)
    ensures SolvesSystem(x, y, m) <==>
              && m[0] == 0.0 && m[|m| - 1] == 0.0
              && forall i: nat {:trigger Interior(x, i)} :: Interior(x, i) ==>
                   Slope(SegmentAt(x, y, m, i - 1), x[i]) == Slope(SegmentAt(x, y, m, i), x[i])
  {
    IncreasingIsSpaced(x);
    forall i: nat | Interior(x, i)
      ensures Slope(SegmentAt(x, y, m, i - 1), x[i]) == Slope(SegmentAt(x, y, m, i), x[i]) <==> Row(x, y, m, i)
    {
      SmoothExactlyWhenRow(x, y, m, i);
    }
  }

  // ---------------------------------------------------------------- sampling

  /** The source's `Math.round((max + min) / 2)`. */
  function Midpoint(min: nat, max: nat): (k: nat)
    ensures 2 * k == min + max || 2 * k == min + max + 1
  {
    (max + min + 1) / 2
  }

  /** Where the bisection between knots lo and hi ends. */
  function SegmentOf(x: seq<real>, t: real, lo: nat, hi: nat): (i: nat)
    requires lo < hi < |x|
    ensures lo <= i < hi
    ensures x[i] <= t || i == lo
    ensures t < x[i + 1] || i + 1 == hi
    decreases hi - lo
  {
    if hi - lo <= 1 then lo
    else
      var k := Midpoint(lo, hi);
      if x[k] > t then SegmentOf(x, t, lo, k) else SegmentOf(x, t, k, hi)
  }

  /** Finds the segment of t by bisection. */
  method FindSegment(x: array<real>, t: real) returns (min: nat, max: nat)
    requires 2 <= x.Length
    ensures max == min + 1 && min == SegmentOf(x[..], t, 0, x.Length - 1)
    ensures x[min] <= t || min == 0
    ensures t < x[max] || max == x.Length - 1
  {
    max := x.Length - 1;
    min := 0;
    while max - min > 1
      invariant 0 <= min < max <= x.Length - 1
      invariant SegmentOf(x[..], t, min, max) == SegmentOf(x[..], t, 0, x.Length - 1)
      decreases max - min
    {
      var k := Midpoint(min, max);
      if x[k] > t {
        max := k;
      } else {
        min := k;
      }
    }
  }

  /** Number of samples the loop `for (j = 1; j < num; ++j)` adds to the first knot. */
  function SampleCount(num: real): (n: nat)
    ensures n == 0 ==> num <= 1.0
    ensures 0 < n ==> n as real < num <= n as real + 1.0
  {
    if num <= 1.0 then 0 else Ceiling(num) - 1
  }

  /** Sample j lies on the spline with second derivatives m, in the segment that brackets it (or, past
      the last knot, on the extended last segment). */
  ghost predicate OnCurve(x: seq<real>, y: seq<real>, m: seq<real>, p: (real, real))
    requires |x| == |y| == |m|
  {
    exists i: nat {:trigger SegmentAt(x, y, m, i)} :: i + 1 < |x|
      && x[i] != x[i + 1] && x[i] <= p.0 && (p.0 < x[i + 1] || i + 1 == |x| - 1)
      && p.1 == Value(SegmentAt(x, y, m, i), p.0)
  }

  /** Abscissa of sample j. */
  function SampleX(first: real, last: real, num: real, j: nat): real {
    if num == 1.0 then first else first + j as real * ((last - first) / (num - 1.0))
  }

  lemma SampleXFromFirst(first: real, last: real, num: real, j: nat)
    requires first < last && 1.0 < num
    ensures first <= SampleX(first, last, num, j)
  {
    QuotientSign(last - first, num - 1.0);
  }

  /** The bisection for sample j ends between two equal knots. */
  ghost predicate BetweenEqualKnots(x: seq<real>, num: real, j: nat)
    requires 2 <= |x|
  {
    var i := SegmentOf(x, SampleX(x[0], x[|x| - 1], num, j), 0, |x| - 1);
    x[i] == x[i + 1]
  }

  /** How the evaluation ends: as the sweep does, or with its second early return (444-447). */
  ghost function CurveOutcome(x: seq<real>, num: real): Outcome
    requires 2 <= |x|
  {
    if SweepOutcome(x) == ReturnsEmpty || exists j :: 0 < j <= SampleCount(num) && BetweenEqualKnots(x, num, j) then
      ReturnsEmpty
    else SweepOutcome(x)
  }

  lemma {:induction false} LastSegment(x: seq<real>, t: real, lo: nat, hi: nat)
    requires lo < hi < |x| && forall i :: 0 <= i < |x| ==> x[i] <= t
    ensures SegmentOf(x, t, lo, hi) == hi - 1
    decreases hi - lo
  {
    if hi - lo > 1 {
      LastSegment(x, t, Midpoint(lo, hi), hi);
    }
  }

  lemma LastSampleBeyond(first: real, last: real, num: real)
    requires first < last && 1.0 < num
    ensures last <= SampleX(first, last, num, SampleCount(num))
  {
    var n, step := SampleCount(num), (last - first) / (num - 1.0);
    QuotientSign(last - first, num - 1.0);
    QuotientTimes(last - first, num - 1.0);
    var over := n as real - (num - 1.0);
    assert n as real * step == (last - first) + over * step;
  }

  /** For knots in order, some of them equal, the second early return is taken exactly for the last two: the
      curve between other equal knots is never asked for, and goes on with the result of a division by zero. */
  lemma EqualKnotsFoundExactlyWhen(x: seq<real>, num: real)
    requires 2 <= |x| && x[0] < x[|x| - 1]
    requires forall i, j :: 0 <= i < j < |x| ==> x[i] <= x[j]
    ensures (exists j :: 0 < j <= SampleCount(num) && BetweenEqualKnots(x, num, j))
       <==> 1.0 < num && x[|x| - 2] == x[|x| - 1]
  {
    hide SampleX, SegmentOf;
    var first, last := x[0], x[|x| - 1];
    if 1.0 < num && x[|x| - 2] == last {
      var n := SampleCount(num);
      LastSampleBeyond(first, last, num);
      LastSegment(x, SampleX(first, last, num, n), 0, |x| - 1);
      assert BetweenEqualKnots(x, num, n);
    }
    if j :| 0 < j <= SampleCount(num) && BetweenEqualKnots(x, num, j) {
      SampleXFromFirst(first, last, num, j);
    }
  }

  /** Sample j of a curve with second derivatives m: its abscissa, and for increasing knots a point of the
      spline. None is an ordinate that comes out of a division by zero in the sweep. */
  ghost predicate IsSample(x: seq<real>, y: seq<real>, num: real, outcome: Outcome, m: seq<real>, j: nat,
                           sample: (real, Option<real>))
    requires 2 <= |x| == |y| == |m|
  {
    && sample.0 == SampleX(x[0], x[|x| - 1], num, j)
    && (sample.1.Some? <==> outcome == Solved)
    && (StrictlyIncreasing(x) ==> sample.1.Some? && OnCurve(x, y, m, (sample.0, sample.1.value)))
  }

  ghost predicate SamplesOf(x: seq<real>, y: seq<real>, num: real, outcome: Outcome, m: seq<real>,
                            result: seq<(real, Option<real>)>)
    requires 2 <= |x| == |y| == |m|
  {
    && |result| == SampleCount(num) + 1
    && result[0] == (x[0], Some(y[0]))
    && forall j {:trigger result[j]} :: 0 < j < |result| ==> IsSample(x, y, num, outcome, m, j, result[j])
  }

  /** calculateLegacyCurvePoints, from the knots on. The source pushes abscissa and ordinate alternately
      into one array; a sample is a pair here. `num` is curvePointFactor times the number of points. */
  method SampleCurve(x: array<real>, y: array<real>, num: real)
    returns (outcome: Outcome, m: seq<real>, result: seq<(real, Option<real>)>)
    requires 2 <= x.Length == y.Length
    ensures outcome == CurveOutcome(x[..], num) && |m| == x.Length
    ensures outcome == Solved ==> SolvesSystem(x[..], y[..], m)
    ensures if outcome == ReturnsEmpty then result == [] else SamplesOf(x[..], y[..], num, outcome, m, result)
    ensures StrictlyIncreasing(x[..]) ==> outcome == Solved
  {
    hide SweepOutcome, SolvesSystem, SegmentOf, IsSample, BetweenEqualKnots, StrictlyIncreasing, Value, SampleX;
    var y2;
    outcome, y2 := SolveSecondDerivatives(x, y);
    m := y2[..];
    if outcome == ReturnsEmpty {
      return outcome, m, [];
    }
    ghost var xs, ys := x[..], y[..];
    result := [(x[0], Some(y[0]))];
    var j := 1;
    while j as real < num
      invariant 1 <= j <= SampleCount(num) + 1 && |result| == j && m == y2[..]
      invariant result[0] == (xs[0], Some(ys[0]))
      invariant forall k :: 0 < k < j ==> !BetweenEqualKnots(xs, num, k)
      invariant forall k {:trigger result[k]} :: 0 < k < j ==> IsSample(xs, ys, num, outcome, m, k, result[k])
      decreases SampleCount(num) + 1 - j
    {
      var xnew := SampleX(x[0], x[x.Length - 1], num, j);
      var min, max := FindSegment(x, xnew);
      var g := Segment(x[min], x[max], y[min], y[max], y2[min], y2[max]);
      NextSample(xs, ys, m, num, outcome, j, min);
      if g.xl == g.xr {
        EqualKnotsEnd(xs, num, j);
        return ReturnsEmpty, m, [];
      }
      result := result + [(xnew, if outcome == Solved then Some(Value(g, xnew)) else None)];
      j := j + 1;
    }
  }

  lemma EqualKnotsEnd(x: seq<real>, num: real, j: nat)
    requires 2 <= |x| && 0 < j <= SampleCount(num) && BetweenEqualKnots(x, num, j)
    ensures CurveOutcome(x, num) == ReturnsEmpty
    ensures !StrictlyIncreasing(x)
  {
    hide SegmentOf, SampleX, SweepOutcome, SampleCount;
  }

  lemma NextSample(x: seq<real>, y: seq<real>, m: seq<real>, num: real, outcome: Outcome, j: nat, i: nat)
    requires 2 <= |x| == |y| == |m| && 1.0 < num && (StrictlyIncreasing(x) ==> outcome == Solved)
    requires i == SegmentOf(x, SampleX(x[0], x[|x| - 1], num, j), 0, |x| - 1)
    ensures BetweenEqualKnots(x, num, j) <==> x[i] == x[i + 1]
    ensures x[i] != x[i + 1] ==>
              var t := SampleX(x[0], x[|x| - 1], num, j);
              var g := Segment(x[i], x[i + 1], y[i], y[i + 1], m[i], m[i + 1]);
              IsSample(x, y, num, outcome, m, j, (t, if outcome == Solved then Some(Value(g, t)) else None))
  {
    if StrictlyIncreasing(x) {
      SampleXFromFirst(x[0], x[|x| - 1], num, j);
      hide SampleX, Value, SegmentOf;
      var t := SampleX(x[0], x[|x| - 1], num, j);
      assert Segment(x[i], x[i + 1], y[i], y[i + 1], m[i], m[i + 1]) == SegmentAt(x, y, m, i);
      assert OnCurve(x, y, m, (t, Value(SegmentAt(x, y, m, i), t)));
    }
  }

  /** Past the first knot there are SampleCount(num) samples; the last of them stays within the knots
      exactly when num is a whole number, and then it is the last knot. A fractional curvePointFactor
      makes the source draw beyond the data. */
  lemma SamplesStayInRange(first: real, last: real, num: real)
    requires first < last && 1.0 < num
    ensures SampleX(first, last, num, SampleCount(num)) <= last <==> num == num.Floor as real
    ensures num == num.Floor as real ==> SampleX(first, last, num, SampleCount(num)) == last
  {
    var n, step := SampleCount(num), (last - first) / (num - 1.0);
    QuotientSign(last - first, num - 1.0);
    QuotientTimes(last - first, num - 1.0);
    var over := n as real - (num - 1.0);
    assert n as real * step == (last - first) + over * step;
    if num == num.Floor as real {
      assert n == num.Floor - 1;
    } else {
      assert over > 0.0;
      assert over * step > 0.0;
    }
  }

  /** Two points with a curvePointFactor of 1.25: the last sample lies a third of the range too far. */
  lemma FractionalFactorCanFail()
    ensures SampleX(0.0, 3.0, 2.5, SampleCount(2.5)) == 4.0
  {
    QuotientIs(2.0, 1.5, 3.0);
  }

  // ---------------------------------------------------------------- the `fit` option

  /** Guard of the loop that pushes the two extra points out of the unit in the last place of x. */
  predicate StillOnPoint(x: real, fpDist: real, factor: real) {
    x - fpDist * factor == x || x + fpDist * factor == x
  }

  /** In exact arithmetic the guard fails at once, unless the distance is zero (an explicit
      fitPointDist: 0, or a single abscissa); then it holds for every factor and the source loops forever. */
  lemma AdjustmentLoop(x: real, fpDist: real, factor: real)
    requires 1.0 <= factor
    ensures StillOnPoint(x, fpDist, factor) <==> fpDist == 0.0
  {
  }

  /** The knots the fit option produces: one extra point close before and one close after each data point. */
  ghost function FitKnots(px: seq<real>, fpDist: real): (x: seq<real>)
    ensures |x| == 3 * |px|
    ensures px != [] ==> x[|x| - 1] == px[|px| - 1] + fpDist
  {
    if px == [] then []
    else
      var p := px[|px| - 1];
      FitKnots(px[..|px| - 1], fpDist) + [p - fpDist, p, p + fpDist]
  }

  /** The adjustment loop does not run for the distances allowed here, see AdjustmentLoop. */
  method InsertFitPoints(px: seq<real>, py: seq<real>, fpDist: real) returns (xdata: seq<real>, ydata: seq<real>)
    requires |px| == |py|
    requires fpDist != 0.0
    ensures xdata == FitKnots(px, fpDist)
    ensures ydata == FitKnots(py, 0.0)
    ensures forall k {:trigger px[k]} :: 0 <= k < |px| ==>
              && xdata[3 * k] == px[k] - fpDist && xdata[3 * k + 1] == px[k] && xdata[3 * k + 2] == px[k] + fpDist
              && ydata[3 * k] == ydata[3 * k + 1] == ydata[3 * k + 2] == py[k]
  {
    xdata, ydata := [], [];
    for i := 0 to |px|
      invariant xdata == FitKnots(px[..i], fpDist) && ydata == FitKnots(py[..i], 0.0)
    {
      assert px[..i + 1][..i] == px[..i] && py[..i + 1][..i] == py[..i];
      xdata := xdata + [px[i] - fpDist, px[i], px[i] + fpDist];
      ydata := ydata + [py[i], py[i], py[i]];
    }
    assert px[..|px|] == px && py[..|py|] == py;
    forall k | 0 <= k < |px|
      ensures xdata[3 * k] == px[k] - fpDist && xdata[3 * k + 1] == px[k] && xdata[3 * k + 2] == px[k] + fpDist
      ensures ydata[3 * k] == ydata[3 * k + 1] == ydata[3 * k + 2] == py[k]
    {
      FitKnotsAt(px, fpDist, k);
      FitKnotsAt(py, 0.0, k);
    }
  }

  /** Data point k lies in the middle of its three knots. */
  lemma {:induction false} FitKnotsAt(px: seq<real>, fpDist: real, k: nat)
    requires k < |px|
    ensures var x := FitKnots(px, fpDist);
            x[3 * k] == px[k] - fpDist && x[3 * k + 1] == px[k] && x[3 * k + 2] == px[k] + fpDist
  {
    var n := |px| - 1;
    if k < n {
      FitKnotsAt(px[..n], fpDist, k);
    }
  }

  lemma IncreasingWithTriple(s: seq<real>, a: real, b: real, c: real)
    ensures StrictlyIncreasing(s + [a, b, c])
            <==> StrictlyIncreasing(s) && a < b < c && (s != [] ==> s[|s| - 1] < a)
  {
    var t := s + [a, b, c];
    assert t[|s|] == a && t[|s| + 1] == b && t[|s| + 2] == c;
    assert forall i :: 0 <= i < |s| ==> t[i] == s[i];
    if StrictlyIncreasing(t) {
      assert t[|s|] < t[|s| + 1] < t[|s| + 2];
      if s != [] {
        assert t[|s| - 1] < t[|s|];
      }
    }
  }

  /** The fitted knots increase exactly when the distance is positive and below half of every gap. The
      source's default, a fixed fraction of the whole range, does not ensure the second part. */
  lemma {:induction false} FitKnotsIncreaseExactlyWhen(px: seq<real>, fpDist: real)
    requires px != []
    ensures StrictlyIncreasing(FitKnots(px, fpDist)) <==>
              && 0.0 < fpDist
              && forall i {:trigger px[i]} :: 0 < i < |px| ==> 2.0 * fpDist < px[i] - px[i - 1]
  {
    var n := |px| - 1;
    var rest := px[..n];
    IncreasingWithTriple(FitKnots(rest, fpDist), px[n] - fpDist, px[n], px[n] + fpDist);
    if n > 0 {
      FitKnotsIncreaseExactlyWhen(rest, fpDist);
      assert forall i {:trigger px[i]} :: 0 < i < n ==> px[i] == rest[i] && px[i - 1] == rest[i - 1];
    }
  }

  /** The default distance is the range divided by 50000; two data points closer than that break the fit. */
  lemma DefaultFitDistanceCanFail()
    ensures var px := [0.0, 0.00001, 1.0];
            StrictlyIncreasing(px) && !StrictlyIncreasing(FitKnots(px, (px[2] - px[0]) / 50000.0))
  {
    var px := [0.0, 0.00001, 1.0];
    FitKnotsIncreaseExactlyWhen(px, (px[2] - px[0]) / 50000.0);
    assert px[1] - px[0] == 0.00001;
  }

  // ---------------------------------------------------------------- the whole function

  /** The distance of the fit points: a part of the range unless it is given (330-340). */
  function FitDistance(px: seq<real>, fitPointDist: Option<real>): (d: real)
    requires px != []
    ensures if fitPointDist.Some? then fitPointDist == Some(d) else 50000.0 * d == px[|px| - 1] - px[0]
  {
    if fitPointDist.Some? then fitPointDist.value else (px[|px| - 1] - px[0]) / 50000.0
  }

  /** The knots of the curve: the data, or the fitted knots; fit is the distance for the latter. */
  ghost function LegacyKnots(px: seq<real>, fit: Option<real>): (x: seq<real>)
    ensures |px| <= |x|
  {
    if fit.Some? then FitKnots(px, fit.value) else px
  }

  /** The ordinates of the knots: fitted knots repeat that of their data point. */
  ghost function LegacyOrdinates(py: seq<real>, fit: bool): seq<real> {
    if fit then FitKnots(py, 0.0) else py
  }

  /** calculateLegacyCurvePoints for the ordinates py. The abscissae of the samples, and whether there are
      any, depend on px alone; over increasing knots they lie on the natural spline of the knots. */
  method CalculateLegacyCurvePoints(px: seq<real>, py: seq<real>, fit: bool, fitPointDist: Option<real>,
                                    curvePointFactor: real)
    returns (outcome: Outcome, m: seq<real>, result: seq<(real, Option<real>)>)
    requires 2 <= |px| == |py|
    requires fit ==> FitDistance(px, fitPointDist) != 0.0
    ensures var x := LegacyKnots(px, if fit then Some(FitDistance(px, fitPointDist)) else None);
            var y := LegacyOrdinates(py, fit);
            var num := curvePointFactor * |px| as real;
            && |y| == |x| == |m|
            && outcome == CurveOutcome(x, num)
            && (outcome == Solved ==> SolvesSystem(x, y, m))
            && (if outcome == ReturnsEmpty then result == [] else SamplesOf(x, y, num, outcome, m, result))
            && (StrictlyIncreasing(x) ==> outcome == Solved)
  {
    var num := curvePointFactor * |px| as real;
    var xdata, ydata := px, py;
    if fit {
      xdata, ydata := InsertFitPoints(px, py, FitDistance(px, fitPointDist));
    }
    hide CurveOutcome, SamplesOf, SolvesSystem, FitKnots;
    var x := new real[|xdata|](i requires 0 <= i < |xdata| => xdata[i]);
    var y := new real[|ydata|](i requires 0 <= i < |ydata| => ydata[i]);
    assert x[..] == xdata && y[..] == ydata;
    outcome, m, result := SampleCurve(x, y, num);
  }
}
