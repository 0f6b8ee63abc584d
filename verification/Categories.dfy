/** Category codes as they grow from series to series (jquery.flot.categories.js:97-105, 146-172):
    a map from labels to codes, extended by every label that is met for the first time. */
module Categories {
  import opened Options

  type Codes = map<string, real>

  ghost predicate Injective(m: Codes) {
    forall a, b :: a in m && b in m && m[a] == m[b] ==> a == b
  }

  /** index is one more than the greatest code, or 0 when no code reaches 0. */
  ghost predicate IsNextIndex(m: Codes, index: real) {
    && (forall a :: a in m ==> m[a] <= index - 1.0)
    && 0.0 <= index
    && (index == 0.0 || exists a :: a in m && m[a] == index - 1.0)
  }

  /** getNextIndex; the order in which a JavaScript object lists its properties does not matter. */
  method GetNextIndex(categories: Codes) returns (next: real)
    ensures IsNextIndex(categories, next)
    ensures forall i :: IsNextIndex(categories, i) ==> i == next
  {
    var index := -1.0;
    var rest := categories.Keys;
    while rest != {}
      invariant rest <= categories.Keys
      invariant -1.0 <= index
      invariant forall a :: a in categories && a !in rest ==> categories[a] <= index
      invariant index == -1.0 || exists a :: a in categories && categories[a] == index
      decreases |rest|
    {
      var v :| v in rest;
      if categories[v] > index {
        index := categories[v];
      }
      rest := rest - {v};
    }
    next := index + 1.0;
    forall i | IsNextIndex(categories, i)
      ensures i == next
    {
      NextIndexIsUnique(categories, i, next);
    }
  }

  lemma NextIndexIsUnique(m: Codes, i: real, j: real)
    requires IsNextIndex(m, i) && IsNextIndex(m, j)
    ensures i == j
  {
  }

  // ---------------------------------------------------------------- meeting labels

  /** The codes after meeting labels in order, each new one getting the running index. */
  function Extended(m: Codes, index: real, labels: seq<string>): Codes
    decreases |labels|
  {
    if labels == [] then m
    else if labels[0] in m then Extended(m, index, labels[1..])
    else Extended(m[labels[0] := index], index + 1.0, labels[1..])
  }

  /** The running index after meeting labels. */
  function IndexAfter(m: Codes, index: real, labels: seq<string>): real
    decreases |labels|
  {
    if labels == [] then index
    else if labels[0] in m then IndexAfter(m, index, labels[1..])
    else IndexAfter(m[labels[0] := index], index + 1.0, labels[1..])
  }

  /** Codes once given never change, and the coded labels are the old ones and those met. */
  lemma {:induction false} ExtendedKeeps(m: Codes, index: real, labels: seq<string>)
    ensures forall a :: a in m ==> a in Extended(m, index, labels) && Extended(m, index, labels)[a] == m[a]
    ensures forall a :: a in Extended(m, index, labels) <==> a in m || a in labels
    decreases |labels|
  {
    if labels != [] {
      var (n, i) := if labels[0] in m then (m, index) else (m[labels[0] := index], index + 1.0);
      ExtendedKeeps(n, i, labels[1..]);
      assert labels == [labels[0]] + labels[1..];
    }
  }

  lemma NextIndexStep(m: Codes, index: real, name: string)
    requires Injective(m) && IsNextIndex(m, index) && name !in m
    ensures Injective(m[name := index]) && IsNextIndex(m[name := index], index + 1.0)
  {
    var n := m[name := index];
    assert n[name] == index + 1.0 - 1.0;
  }

  /** Distinct labels keep distinct codes, and the running index is what getNextIndex would find. */
  lemma {:induction false} ExtendedInjective(m: Codes, index: real, labels: seq<string>)
    requires Injective(m) && IsNextIndex(m, index)
    ensures Injective(Extended(m, index, labels))
    ensures IsNextIndex(Extended(m, index, labels), IndexAfter(m, index, labels))
    decreases |labels|
  {
    if labels == [] {
    } else if labels[0] in m {
      ExtendedInjective(m, index, labels[1..]);
    } else {
      NextIndexStep(m, index, labels[0]);
      ExtendedInjective(m[labels[0] := index], index + 1.0, labels[1..]);
    }
  }

  /** Meeting two runs of labels one after the other is meeting them in one run. */
  lemma {:induction false} ExtendedConcat(m: Codes, index: real, a: seq<string>, b: seq<string>)
    ensures Extended(m, index, a + b) == Extended(Extended(m, index, a), IndexAfter(m, index, a), b)
    ensures IndexAfter(m, index, a + b) == IndexAfter(Extended(m, index, a), IndexAfter(m, index, a), b)
    decreases |a|
  {
    if a == [] {
      assert a + b == b;
    } else {
      assert (a + b)[1..] == a[1..] + b;
      var (n, i) := if a[0] in m then (m, index) else (m[a[0] := index], index + 1.0);
      ExtendedConcat(n, i, a[1..], b);
    }
  }

  // ---------------------------------------------------------------- the points of one series

  datatype Cell = Null | Number(value: real) | Label(text: string)

  /** The property name that a cell's value becomes; show is JavaScript's conversion of numbers. */
  function Key(c: Cell, show: real -> string): string
    requires c != Null
  {
    if c.Number? then show(c.value) else c.text
  }

  /** The place of cell k within its point of ps cells. */
  function Column(k: nat, ps: nat): (c: nat)
    requires 0 < ps
    ensures c < ps && c <= k
  {
    if k < ps then k else Column(k - ps, ps)
  }

  /** Cell k is on the axis, and neither it nor the first cell of its point is null. */
  predicate Coded(cells: seq<Cell>, k: nat, ps: nat, onAxis: seq<bool>)
    requires k < |cells| && 0 < ps <= |onAxis|
  {
    cells[k - Column(k, ps)] != Null && cells[k] != Null && onAxis[Column(k, ps)]
  }

  /** The labels among the first k cells, in order. */
  function Labels(cells: seq<Cell>, k: nat, ps: nat, onAxis: seq<bool>, show: real -> string): seq<string>
    requires k <= |cells| && 0 < ps <= |onAxis|
  {
    if k == 0 then []
    else Labels(cells, k - 1, ps, onAxis, show)
         + if Coded(cells, k - 1, ps, onAxis) then [Key(cells[k - 1], show)] else []
  }

  lemma {:induction false} LabelsHold(cells: seq<Cell>, n: nat, ps: nat, onAxis: seq<bool>, show: real -> string,
                                      k: nat)
    requires k < n <= |cells| && 0 < ps <= |onAxis|
    requires Coded(cells, k, ps, onAxis)
    ensures Key(cells[k], show) in Labels(cells, n, ps, onAxis, show)
  {
    if k < n - 1 {
      LabelsHold(cells, n - 1, ps, onAxis, show, k);
    } else {
      assert [Key(cells[k], show)][0] == Key(cells[k], show);
    }
  }

  lemma {:induction false} ColumnOf(i: nat, ps: nat, c: nat)
    requires c < ps && Column(i, ps) == 0
    ensures Column(i + c, ps) == c
  {
    if i >= ps {
      ColumnOf(i - ps, ps, c);
    }
  }

  /** Whole points end at or before the end of the cells. */
  lemma {:induction false} WholePoint(i: nat, ps: nat, n: nat)
    requires 0 < ps && Column(i, ps) == 0 && Column(n, ps) == 0 && i < n
    ensures i + ps <= n
    ensures Column(i + ps, ps) == 0
  {
    if i >= ps {
      WholePoint(i - ps, ps, n - ps);
    }
  }

  /** A point whose first cell is null contributes no labels. */
  lemma {:induction false} NullPoint(cells: seq<Cell>, i: nat, c: nat, ps: nat, onAxis: seq<bool>, show: real -> string)
    requires 0 < ps <= |onAxis| && c <= ps && i + c <= |cells|
    requires i < |cells| && cells[i] == Null && Column(i, ps) == 0
    ensures Labels(cells, i + c, ps, onAxis, show) == Labels(cells, i, ps, onAxis, show)
    ensures forall k :: i <= k < i + c ==> !Coded(cells, k, ps, onAxis)
  {
    if c > 0 {
      NullPoint(cells, i, c - 1, ps, onAxis, show);
      ColumnOf(i, ps, c - 1);
      assert !Coded(cells, i + c - 1, ps, onAxis);
    }
  }

  // ---------------------------------------------------------------- transformPointsOnAxis

  lemma OneMore(m: Codes, index: real, labels: seq<string>, name: string)
    ensures var n, i := Extended(m, index, labels), IndexAfter(m, index, labels);
            && Extended(m, index, labels + [name]) == (if name in n then n else n[name := i])
            && IndexAfter(m, index, labels + [name]) == (if name in n then i else i + 1.0)
  {
    ExtendedConcat(m, index, labels, [name]);
    assert [name][1..] == [];
  }

  /** The codes and the running index are those after the labels of the first k cells. */
  ghost predicate Progress(before: Codes, first: real, cells: seq<Cell>, k: nat, ps: nat, onAxis: seq<bool>,
                           show: real -> string, codes: Codes, index: real)
    requires k <= |cells| && 0 < ps <= |onAxis|
  {
    var labels := Labels(cells, k, ps, onAxis, show);
    codes == Extended(before, first, labels) && index == IndexAfter(before, first, labels)
  }

  /** Cell k has been given its code, if it has one. */
  ghost predicate Done(cells: seq<Cell>, k: nat, ps: nat, onAxis: seq<bool>, show: real -> string, codes: Codes,
                       now: Cell)
    requires k < |cells| && 0 < ps <= |onAxis|
  {
    if Coded(cells, k, ps, onAxis)
    then Key(cells[k], show) in codes && now == Number(codes[Key(cells[k], show)])
    else now == cells[k]
  }

  /** The first k cells are done and the others are as they were. */
  ghost predicate DoneUpTo(cells: seq<Cell>, k: nat, ps: nat, onAxis: seq<bool>, show: real -> string, codes: Codes,
                           now: seq<Cell>)
    requires k <= |cells| && 0 < ps <= |onAxis|
  {
    && |now| == |cells|
    && (forall j :: 0 <= j < k ==> Done(cells, j, ps, onAxis, show, codes, now[j]))
    && (forall j :: k <= j < |cells| ==> now[j] == cells[j])
  }

  lemma {:induction false} PointsAreAligned(p: nat, ps: nat)
    requires 0 < ps
    ensures 0 <= p * ps && Column(p * ps, ps) == 0
  {
    if p > 0 {
      assert p * ps == (p - 1) * ps + ps;
      PointsAreAligned(p - 1, ps);
    }
  }

  /** A rewritten series, by points and slots: a slot is untouched when it or the first slot of its point is
      null or it is not on the axis; otherwise it holds the code of its text, or of the name of its number. */
  lemma CellsAreRewritten(cells: seq<Cell>, p: nat, slot: nat, ps: nat, onAxis: seq<bool>, show: real -> string,
                          codes: Codes, now: seq<Cell>)
    requires slot < ps <= |onAxis| && p * ps + slot < |cells|
    requires DoneUpTo(cells, |cells|, ps, onAxis, show, codes, now)
    ensures |now| == |cells| && 0 <= p * ps
    ensures var k := p * ps + slot;
            if cells[p * ps] == Null || cells[k] == Null || !onAxis[slot] then now[k] == cells[k]
            else
              match cells[k]
              case Label(text) => text in codes && now[k] == Number(codes[text])
              case Number(value) => show(value) in codes && now[k] == Number(codes[show(value)])
  {
    PointsAreAligned(p, ps);
    ColumnOf(p * ps, ps, slot);
    hide Column;
    var k := p * ps + slot;
    assert Done(cells, k, ps, onAxis, show, codes, now[k]);
  }

  /** Coding one cell, with a new code if its label has none. */
  lemma CodeCell(before: Codes, first: real, cells: seq<Cell>, k: nat, ps: nat, onAxis: seq<bool>, show: real -> string,
                 codes: Codes, index: real, now: seq<Cell>)
    requires k < |cells| && 0 < ps <= |onAxis| && Coded(cells, k, ps, onAxis)
    requires Progress(before, first, cells, k, ps, onAxis, show, codes, index)
    requires DoneUpTo(cells, k, ps, onAxis, show, codes, now)
    ensures var name := Key(cells[k], show);
            var codes', index' := if name in codes then codes else codes[name := index],
                                  if name in codes then index else index + 1.0;
            && Progress(before, first, cells, k + 1, ps, onAxis, show, codes', index')
            && DoneUpTo(cells, k + 1, ps, onAxis, show, codes', now[k := Number(codes'[name])])
  {
    hide Column, Extended, IndexAfter;
    OneMore(before, first, Labels(cells, k, ps, onAxis, show), Key(cells[k], show));
  }

  lemma SkipCell(before: Codes, first: real, cells: seq<Cell>, k: nat, ps: nat, onAxis: seq<bool>, show: real -> string,
                 codes: Codes, index: real, now: seq<Cell>)
    requires k < |cells| && 0 < ps <= |onAxis| && !Coded(cells, k, ps, onAxis)
    requires Progress(before, first, cells, k, ps, onAxis, show, codes, index)
    requires DoneUpTo(cells, k, ps, onAxis, show, codes, now)
    ensures Progress(before, first, cells, k + 1, ps, onAxis, show, codes, index)
    ensures DoneUpTo(cells, k + 1, ps, onAxis, show, codes, now)
  {
    hide Column, Extended, IndexAfter;
    var labels := Labels(cells, k, ps, onAxis, show);
    assert labels + [] == labels;
  }

  lemma Untouched(cells: seq<Cell>, k: nat, ps: nat, onAxis: seq<bool>, show: real -> string, codes: Codes,
                  now: seq<Cell>)
    requires k < |cells| && 0 < ps <= |onAxis|
    requires DoneUpTo(cells, k, ps, onAxis, show, codes, now)
    ensures |now| == |cells| && now[k] == cells[k]
  {
  }

  lemma SkipPoint(before: Codes, first: real, cells: seq<Cell>, i: nat, ps: nat, onAxis: seq<bool>,
                  show: real -> string, codes: Codes, index: real, now: seq<Cell>)
    requires 0 < ps <= |onAxis| && i + ps <= |cells| && Column(i, ps) == 0 && cells[i] == Null
    requires Progress(before, first, cells, i, ps, onAxis, show, codes, index)
    requires DoneUpTo(cells, i, ps, onAxis, show, codes, now)
    ensures Progress(before, first, cells, i + ps, ps, onAxis, show, codes, index)
    ensures DoneUpTo(cells, i + ps, ps, onAxis, show, codes, now)
  {
    NullPoint(cells, i, ps, ps, onAxis, show);
    hide Coded, Labels, Extended, IndexAfter;
  }

  // ---------------------------------------------------------------- the categories option

  /** The categories option of an axis: absent, a list of labels, or an object with codes. */
  datatype CategoryOption = Unset | Listed(labels: seq<string>) | Coding(codes: Codes)

  /** The codes of a list: a label listed again gets its later place. */
  function ListCodes(labels: seq<string>): Codes {
    if labels == [] then map[]
    else ListCodes(labels[..|labels| - 1])[labels[|labels| - 1] := (|labels| - 1) as real]
  }

  function InitialCodes(option: CategoryOption): Codes {
    match option
    case Unset => map[]
    case Listed(labels) => ListCodes(labels)
    case Coding(codes) => codes
  }

  /** j is the last place of a in the list. */
  predicate LastPlace(labels: seq<string>, a: string, j: int) {
    0 <= j < |labels| && labels[j] == a && a !in labels[j + 1..]
  }

  /** A list of labels in the options gives each of them its last place. */
  lemma {:induction false} ListCodesMeans(labels: seq<string>)
    ensures var c := ListCodes(labels);
            && Injective(c)
            && (forall a :: a in c <==> a in labels)
            && forall a :: a in c ==> c[a] == c[a].Floor as real && LastPlace(labels, a, c[a].Floor)
  {
    if labels != [] {
      var n := |labels| - 1;
      ListCodesMeans(labels[..n]);
      assert labels == labels[..n] + [labels[n]];
      var c := ListCodes(labels[..n]);
      forall a | a in c && a != labels[n]
        ensures LastPlace(labels, a, c[a].Floor)
      {
        LastPlaceStays(labels, a, c[a].Floor);
      }
      LastPlaceNew(labels);
    }
  }

  lemma LastPlaceStays(labels: seq<string>, a: string, j: int)
    requires labels != [] && a != labels[|labels| - 1] && LastPlace(labels[..|labels| - 1], a, j)
    ensures LastPlace(labels, a, j)
  {
  }

  lemma LastPlaceNew(labels: seq<string>)
    requires labels != []
    ensures LastPlace(labels, labels[|labels| - 1], |labels| - 1)
  {
  }

  // ---------------------------------------------------------------- the axis

  class Axis {
    const option: CategoryOption
    const enabled: bool
    /** Whether the option was parsed already. */
    var parsed: bool
    var categories: Codes

    /** The codes the next series starts from. */
    ghost function Current(): Codes
      reads this
    {
      if parsed then categories else InitialCodes(option)
    }

    /** setupCategoriesForAxis: parses the option for the first series, and transforms every series. */
    method SetupCategoriesForAxis(points: array<Cell>, ps: nat, onAxis: seq<bool>, show: real -> string)
      returns (ghost first: real)
      requires 0 < ps <= |onAxis| && Column(points.Length, ps) == 0
      modifies this, points
      ensures !enabled ==> points[..] == old(points[..]) && Current() == old(Current())
      ensures enabled ==>
                && parsed
                && IsNextIndex(old(Current()), first)
                && Current() == Extended(old(Current()), first,
                                         Labels(old(points[..]), points.Length, ps, onAxis, show))
                && DoneUpTo(old(points[..]), points.Length, ps, onAxis, show, Current(), points[..])
      ensures enabled && !old(parsed) && option.Coding? ==>
                forall a :: a in option.codes ==> a in categories && categories[a] == option.codes[a]
      ensures enabled && !old(parsed) && option.Listed? ==>
                forall a :: a in option.labels ==>
                  a in categories && categories[a] == categories[a].Floor as real
                  && LastPlace(option.labels, a, categories[a].Floor)
    {
      hide Labels, Extended, IndexAfter, Coded, DoneUpTo, IsNextIndex;
      first := 0.0;
      if !enabled {
        return;
      }
      if !parsed {
        match option {
          case Unset => categories := map[];
          case Listed(labels) =>
            var c: Codes := map[];
            for i := 0 to |labels|
              invariant c == ListCodes(labels[..i])
            {
              assert labels[..i + 1][..i] == labels[..i];
              c := c[labels[i] := i as real];
            }
            assert labels[..|labels|] == labels;
            categories := c;
          case Coding(codes) => categories := codes;
        }
        parsed := true;
      }
      assert categories == old(Current()) && points[..] == old(points[..]);
      first := TransformPointsOnAxis(points, ps, onAxis, show);
      if option.Listed? {
        ListCodesMeans(option.labels);
      }
      ExtendedKeeps(old(Current()), first, Labels(old(points[..]), points.Length, ps, onAxis, show));
    }

    /** Rewrites the labels of a series in place and extends the axis's codes by those it has not met. */
    method TransformPointsOnAxis(points: array<Cell>, ps: nat, onAxis: seq<bool>, show: real -> string)
      returns (ghost first: real)
      requires 0 < ps <= |onAxis| && Column(points.Length, ps) == 0
      modifies this`categories, points
      ensures IsNextIndex(old(categories), first)
      ensures categories == Extended(old(categories), first, Labels(old(points[..]), points.Length, ps, onAxis, show))
      ensures DoneUpTo(old(points[..]), points.Length, ps, onAxis, show, categories, points[..])
    {
      hide Labels, Extended, IndexAfter, Coded;
      ghost var cells := points[..];
      ghost var before := categories;
      var index := GetNextIndex(categories);
      first := index;
      NoLabels(before, first, cells, ps, onAxis, show);
      var i := 0;
      while i < points.Length
        invariant i <= points.Length && Column(i, ps) == 0
        invariant Progress(before, first, cells, i, ps, onAxis, show, categories, index)
        invariant DoneUpTo(cells, i, ps, onAxis, show, categories, points[..])
      {
        WholePoint(i, ps, points.Length);
        assert points[..][i] == cells[i];
        if points[i] == Null {
          SkipPoint(before, first, cells, i, ps, onAxis, show, categories, index, points[..]);
          i := i + ps;
          continue;
        }
        hide Column, Progress, DoneUpTo;
        index := TransformPoint(points, i, ps, onAxis, show, index, before, first, cells);
        i := i + ps;
      }
    }

    /** The cells of one point whose first cell is not null (158-170). */
    method TransformPoint(points: array<Cell>, i: nat, ps: nat, onAxis: seq<bool>, show: real -> string, index: real,
                          ghost before: Codes, ghost first: real, ghost cells: seq<Cell>)
      returns (index': real)
      requires 0 < ps <= |onAxis| && i + ps <= points.Length == |cells| && Column(i, ps) == 0
      requires points[i] != Null
      requires Progress(before, first, cells, i, ps, onAxis, show, categories, index)
      requires DoneUpTo(cells, i, ps, onAxis, show, categories, points[..])
      modifies this`categories, points
      ensures Progress(before, first, cells, i + ps, ps, onAxis, show, categories, index')
      ensures DoneUpTo(cells, i + ps, ps, onAxis, show, categories, points[..])
    {
      hide Progress, Labels, Extended, IndexAfter, Column, DoneUpTo, Done;
      index' := index;
      Untouched(cells, i, ps, onAxis, show, categories, points[..]);
      for m := 0 to ps
        invariant Progress(before, first, cells, i + m, ps, onAxis, show, categories, index')
        invariant DoneUpTo(cells, i + m, ps, onAxis, show, categories, points[..])
      {
        ColumnOf(i, ps, m);
        Untouched(cells, i + m, ps, onAxis, show, categories, points[..]);
        var val := points[i + m];
        if val == Null || !onAxis[m] {
          SkipCell(before, first, cells, i + m, ps, onAxis, show, categories, index', points[..]);
        } else {
          CodeCell(before, first, cells, i + m, ps, onAxis, show, categories, index', points[..]);
          ghost var now := points[..];
          var name := Key(val, show);
          if name !in categories {
            categories := categories[name := index'];
            index' := index' + 1.0;
          }
          points[i + m] := Number(categories[name]);
          assert points[..] == now[i + m := Number(categories[name])];
        }
      }
    }
  }

  lemma NoLabels(before: Codes, first: real, cells: seq<Cell>, ps: nat, onAxis: seq<bool>, show: real -> string)
    requires 0 < ps <= |onAxis|
    ensures Progress(before, first, cells, 0, ps, onAxis, show, before, first)
  {
  }

  // ---------------------------------------------------------------- several series on one axis

  /** The codes after the labels of several series, the running index looked up anew for each. */
  ghost predicate AfterSeries(m: Codes, series: seq<seq<string>>, after: Codes)
    decreases |series|
  {
    if series == [] then after == m
    else exists index :: IsNextIndex(m, index) && AfterSeries(Extended(m, index, series[0]), series[1..], after)
  }

  function Flat(series: seq<seq<string>>): seq<string> {
    if series == [] then [] else series[0] + Flat(series[1..])
  }

  /** Series by series gives the codes of all their labels met in one run: only the order of first
      appearance matters. Injective codes stay injective, and no code changes. */
  lemma {:induction false} SeriesAreOneRun(m: Codes, index: real, series: seq<seq<string>>, after: Codes)
    requires Injective(m) && IsNextIndex(m, index)
    requires AfterSeries(m, series, after)
    ensures after == Extended(m, index, Flat(series))
    ensures Injective(after)
    ensures forall a :: a in m ==> a in after && after[a] == m[a]
    decreases |series|
  {
    if series != [] {
      var i :| IsNextIndex(m, i) && AfterSeries(Extended(m, i, series[0]), series[1..], after);
      NextIndexIsUnique(m, i, index);
      ExtendedInjective(m, index, series[0]);
      ExtendedKeeps(m, index, series[0]);
      SeriesAreOneRun(Extended(m, index, series[0]), IndexAfter(m, index, series[0]), series[1..], after);
      ExtendedConcat(m, index, series[0], Flat(series[1..]));
    }
  }

  /** The label that a code stands for. */
  ghost function Decode(m: Codes, code: real): Option<string> {
    if a :| a in m && m[a] == code then Some(a) else None
  }

  /** The codes written for a series are decoded by the axis's final codes, after any further series. */
  lemma DecodeRestores(m: Codes, index: real, labels: seq<string>, later: seq<seq<string>>, after: Codes, name: string)
    requires Injective(m) && IsNextIndex(m, index)
    requires AfterSeries(Extended(m, index, labels), later, after)
    requires name in labels
    ensures name in Extended(m, index, labels)
    ensures Decode(after, Extended(m, index, labels)[name]) == Some(name)
  {
    ExtendedInjective(m, index, labels);
    ExtendedKeeps(m, index, labels);
    SeriesAreOneRun(Extended(m, index, labels), IndexAfter(m, index, labels), later, after);
  }

  /** The cells of a series, rewritten in place, give their labels back through the final codes. */
  lemma RewritingIsUndone(m: Codes, index: real, cells: seq<Cell>, ps: nat, onAxis: seq<bool>, show: real -> string,
                          now: seq<Cell>, later: seq<seq<string>>, after: Codes, k: nat)
    requires Injective(m) && IsNextIndex(m, index) && 0 < ps <= |onAxis| && k < |cells|
    requires var codes := Extended(m, index, Labels(cells, |cells|, ps, onAxis, show));
             DoneUpTo(cells, |cells|, ps, onAxis, show, codes, now) && AfterSeries(codes, later, after)
    ensures Coded(cells, k, ps, onAxis) ==> now[k].Number? && Decode(after, now[k].value) == Some(Key(cells[k], show))
    ensures !Coded(cells, k, ps, onAxis) ==> now[k] == cells[k]
  {
    assert Done(cells, k, ps, onAxis, show, Extended(m, index, Labels(cells, |cells|, ps, onAxis, show)), now[k]);
    if Coded(cells, k, ps, onAxis) {
      LabelsHold(cells, |cells|, ps, onAxis, show, k);
      DecodeRestores(m, index, Labels(cells, |cells|, ps, onAxis, show), later, after, Key(cells[k], show));
    }
  }
}
