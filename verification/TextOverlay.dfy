/** The operations of flot's Canvas on its text cache, as methods that update the cache and the page. */
module TextOverlay {
  import opened TextCache

  ghost function SweptInfo(info: Info): Info {
    info.(positions := Kept(info.positions))
  }

  /** The cache after the sweep over one text. */
  ghost function SweptCache(cache: map<Key, Info>, k: Key): map<Key, Info>
    requires k in cache
  {
    var info' := SweptInfo(cache[k]);
    if info'.positions == [] then cache[k := info'] - {k} else cache[k := info']
  }

  lemma SweepTouchesOwn(attached: map<nat, string>, layer: string, info: Info)
    ensures var attached' := AfterRender(attached, layer, info.positions);
            forall e :: !HasElement(info, e) ==>
              && (e in attached' <==> e in attached) && (e in attached ==> attached'[e] == attached[e])
              && !OwnedBy(info, e)
  {
    forall e | !HasElement(info, e)
      ensures var attached' := AfterRender(attached, layer, info.positions);
              && (e in attached' <==> e in attached) && (e in attached ==> attached'[e] == attached[e])
              && !OwnedBy(info, e)
    {
      AfterRenderOthers(attached, layer, info.positions, e);
    }
  }

  lemma SweepOne(cache: map<Key, Info>, dom: map<nat, Element>, attached: map<nat, string>, requested: set<Request>,
                 k: Key)
    requires Consistent(cache, dom, attached, requested) && k in cache
    ensures Consistent(SweptCache(cache, k), dom, AfterRender(attached, k.layer, cache[k].positions), requested)
    ensures k in SweptCache(cache, k) ==> Swept(SweptCache(cache, k)[k])
  {
    hide EntryOk, HasElement, OwnedBy, Wants, AfterRender, Kept, LeavesOthers;
    var info, info' := cache[k], SweptInfo(cache[k]);
    var attached' := AfterRender(attached, k.layer, info.positions);
    assert EntryOk(k, info, dom, attached);
    SweptEntry(k, info, dom, attached);
    SweepTouchesOwn(attached, k.layer, info);
    ElementsKnown(cache, dom, attached, requested);
    OnlyOwnElements(cache, k, info', dom, attached, dom, attached');
    assert Follows(k, info', requested, requested);
    hide Consistent, LeavesOthers, Follows;
    ReplaceEntry(cache, dom, attached, requested, k, info', dom, attached', requested);
    if info'.positions == [] {
      DropEntry(cache[k := info'], dom, attached', requested, k);
    }
  }

  /** All positions of a text marked for removal. */
  ghost function Deactivated(info: Info): (r: Info)
    ensures SameButActive(info, r)
  {
    info.(positions := seq(|info.positions|,
                           i requires 0 <= i < |info.positions| => info.positions[i].(active := false)))
  }

  function AlignX(x: real, halign: HAlign, width: real): real {
    match halign
    case Left => x
    case Center => x - width / 2.0
    case Right => x - width
  }

  function AlignY(y: real, valign: VAlign, height: real): real {
    match valign
    case AtTop => y
    case Middle => y - height / 2.0
    case AtBottom => y - height
  }

  /** An interval that starts at `start` is left of the anchor, around it or right of it, as aligned. */
  ghost predicate PlacedX(x0: real, halign: HAlign, start: real, width: real) {
    match halign
    case Left => start == x0
    case Center => x0 - start == start + width - x0
    case Right => start + width == x0
  }

  ghost predicate PlacedY(y0: real, valign: VAlign, start: real, height: real) {
    match valign
    case AtTop => start == y0
    case Middle => y0 - start == start + height - y0
    case AtBottom => start + height == y0
  }

  /** Placed at (x, y), the box of a text lies at its anchor as aligned. */
  ghost predicate Placed(x0: real, y0: real, halign: HAlign, valign: VAlign, info: Info, x: real, y: real) {
    PlacedX(x0, halign, x, info.width) && PlacedY(y0, valign, y, info.height)
  }

  class Canvas {
    var cache: map<Key, Info>
    var dom: map<nat, Element>
    var attached: map<nat, string>
    var nextElement: nat
    /** What clear-and-redraw would have on the page: texts added and not removed since. */
    ghost var requested: set<Request>

    ghost predicate Valid()
      reads this
    {
      && Consistent(cache, dom, attached, requested)
      && forall e :: e in dom ==> e < nextElement
    }

    constructor ()
      ensures Valid() && requested == {} && attached == map[]
    {
      cache, dom, attached, nextElement, requested := map[], map[], map[], 0, {};
    }

    /** `width` and `height` are the measured size of the new element. */
    method GetTextInfo(key: Key, width: real, height: real) returns (info: Info)
      requires Valid()
      modifies this
      ensures Valid() && requested == old(requested) && attached == old(attached)
      ensures key in cache && info == cache[key]
      ensures cache == if key in old(cache) then old(cache)
          else old(cache)[key := Info(width, height, old(nextElement), [])]
      ensures dom == if key in old(cache) then old(dom)
          else old(dom)[old(nextElement) := Element(key.style, key.text, 0.0, -9999.0)]
    {
      if key !in cache {
        info := Info(width, height, nextElement, []);
        ghost var element := Element(key.style, key.text, 0.0, -9999.0);
        NewEntry(cache, dom, attached, requested, key, info, element);
        dom := dom[nextElement := Element(key.style, key.text, 0.0, -9999.0)];
        cache := cache[key := info];
        nextElement := nextElement + 1;
      }
      info := cache[key];
    }

    /** The text joins the requests, at the one place where its box lies at the anchor as aligned. A text that was
        measured before keeps its size. */
    method AddText(key: Key, x0: real, y0: real, width: real, height: real, halign: HAlign, valign: VAlign)
      requires Valid()
      modifies this
      ensures Valid() && attached == old(attached)
      ensures key in cache
      ensures if key in old(cache) then cache[key].width == old(cache)[key].width
                                        && cache[key].height == old(cache)[key].height
              else cache[key].width == width && cache[key].height == height
      ensures exists x, y :: Placed(x0, y0, halign, valign, cache[key], x, y)
                             && requested == old(requested) + {Request(key, x, y)}
    {
      hide Consistent;
      var info := GetTextInfo(key, width, height);
      FirstElementKnown(cache, dom, attached, requested, key);
      var x, y := AlignX(x0, halign, info.width), AlignY(y0, valign, info.height);
      assert Placed(x0, y0, halign, valign, info, x, y);
      var positions := info.positions;
      var i := 0;
      while i < |positions|
        invariant 0 <= i <= |positions|
        invariant forall j {:trigger positions[j]} :: 0 <= j < i ==> positions[j].x != x || positions[j].y != y
      {
        if positions[i].x == x && positions[i].y == y {
          Reactivated(cache, dom, attached, requested, key, i);
          cache := cache[key := info.(positions := positions[i := positions[i].(active := true)])];
          requested := requested + {Request(key, x, y)};
          return;
        }
        i := i + 1;
      }
      var element := if |positions| > 0 then nextElement else info.element;
      var position := Position(true, false, element, x, y);
      NewPosition(cache, dom, attached, requested, key, position);
      if |positions| > 0 {
        nextElement := nextElement + 1;
      }
      dom := dom[element := Element(key.style, key.text, x, y)];
      cache := cache[key := info.(positions := positions + [position])];
      requested := requested + {Request(key, x, y)};
    }

    /** removeText without a text: the whole layer. */
    method RemoveLayer(layer: string)
      requires Valid()
      modifies this
      ensures Valid() && attached == old(attached)
      ensures requested == set r | r in old(requested) && r.key.layer != layer
    {
      hide Consistent, Follows;
      var keys := set k | k in cache && k.layer == layer;
      UnlistedKeysHaveNoRequests(cache, dom, attached, requested);
      while keys != {}
        invariant Valid() && attached == old(attached)
        invariant cache.Keys == old(cache.Keys)
        invariant keys <= cache.Keys && forall k :: k in keys ==> k.layer == layer
        invariant requested <= old(requested)
        invariant forall r :: r in old(requested) && (r.key.layer != layer || r.key in keys) ==> r in requested
        invariant forall r :: r in requested && r.key.layer == layer ==> r.key in keys
        decreases |keys|
      {
        var k :| k in keys;
        var info := cache[k];
        var positions := DeactivateAll(info.positions);
        var info' := info.(positions := positions);
        assert info' == Deactivated(info);
        ghost var requested' := set r | r in requested && r.key != k;
        DeactivatedFollows(cache, dom, attached, requested, k);
        ChangeActive(cache, dom, attached, requested, k, info', requested');
        cache := cache[k := info'];
        requested := requested';
        keys := keys - {k};
      }
    }

    static method DeactivateAll(before: seq<Position>) returns (positions: seq<Position>)
      ensures positions == seq(|before|, i requires 0 <= i < |before| => before[i].(active := false))
    {
      positions := before;
      for i := 0 to |before|
        invariant |positions| == |before|
        invariant forall j {:trigger positions[j]} :: 0 <= j < i ==> positions[j] == before[j].(active := false)
        invariant forall j {:trigger positions[j]} :: i <= j < |before| ==> positions[j] == before[j]
      {
        positions := positions[i := positions[i].(active := false)];
      }
    }

    /** removeText with a text: one position of it. Coordinates are compared as stored, without alignment. */
    method RemoveText(key: Key, x: real, y: real, width: real, height: real)
      requires Valid()
      modifies this
      ensures Valid() && attached == old(attached)
      ensures requested == old(requested) - {Request(key, x, y)}
      ensures key in cache && cache[key].width == (if key in old(cache) then old(cache)[key].width else width)
                           && cache[key].height == if key in old(cache) then old(cache)[key].height else height
    {
      var info := GetTextInfo(key, width, height);
      var positions := info.positions;
      for i := 0 to |info.positions|
        invariant |positions| == |info.positions|
        invariant forall j {:trigger positions[j]} :: 0 <= j < i ==>
                    positions[j] == if info.positions[j].x == x && info.positions[j].y == y
                                    then info.positions[j].(active := false) else info.positions[j]
        invariant forall j {:trigger positions[j]} :: i <= j < |positions| ==> positions[j] == info.positions[j]
      {
        if positions[i].x == x && positions[i].y == y {
          positions := positions[i := positions[i].(active := false)];
        }
      }
      var info' := info.(positions := positions);
      RemovedFollows(key, info, info', x, y, requested);
      ChangeActive(cache, dom, attached, requested, key, info', requested - {Request(key, x, y)});
      cache := cache[key := info'];
      requested := requested - {Request(key, x, y)};
    }

    /** After a render the page shows exactly what clear-and-redraw would show, each text once, and no
        text is cached without a position. */
    method Render()
      requires Valid()
      modifies this
      ensures Valid() && requested == old(requested)
      ensures ShowsExactly(dom, attached, requested)
      ensures forall k :: k in cache ==> cache[k].positions != []
    {
      hide ShowsExactly, Consistent, Swept, Kept, AfterRender;
      var keys := cache.Keys;
      while keys != {}
        invariant Valid() && requested == old(requested)
        invariant keys <= cache.Keys
        invariant forall k :: k in cache && k !in keys ==> Swept(cache[k])
        decreases |keys|
      {
        var k :| k in keys;
        SweepOne(cache, dom, attached, requested, k);
        ghost var swept := SweptCache(cache, k);
        var positions := RenderPositions(k.layer, cache[k].positions);
        cache := cache[k := cache[k].(positions := positions)];
        if |positions| == 0 {
          cache := cache - {k};
        }
        assert cache == swept;
        keys := keys - {k};
      }
      SweptShowsExactly(cache, dom, attached, requested);
    }

    /** The inner loop of render: positions are spliced out of the list while it is scanned. */
    method RenderPositions(layer: string, before: seq<Position>) returns (positions: seq<Position>)
      modifies this`attached
      ensures positions == Kept(before)
      ensures attached == AfterRender(old(attached), layer, before)
    {
      hide Kept, AfterRender;
      positions := before;
      var i := 0;
      ghost var n := 0;
      RenderNothing(attached, layer, before);
      ghost var kept: seq<Position> := [];
      while i < |positions|
        invariant 0 <= n <= |before|
        invariant i == |kept| && positions == kept + before[n..]
        invariant kept == Kept(before[..n])
        invariant attached == AfterRender(old(attached), layer, before[..n])
        decreases |before| - n
      {
        var position := positions[i];
        RenderStep(old(attached), layer, before, n);
        AtSeam(kept, before, n, position.(rendered := true));
        if position.active {
          kept := kept + [position.(rendered := true)];
          if !position.rendered {
            attached := attached[position.element := layer];
            positions := positions[i := position.(rendered := true)];
          }
          i := i + 1;
        } else {
          positions := positions[..i] + positions[i + 1..];
          if position.rendered {
            attached := attached - {position.element};
          }
        }
        n := n + 1;
      }
      assert before[..n] == before;
    }
  }

  /** The position at the seam of the scanned and the unscanned part, replaced or spliced out. */
  lemma AtSeam(kept: seq<Position>, before: seq<Position>, n: nat, q: Position)
    requires n < |before|
    ensures var ps := kept + before[n..];
            && ps[|kept|] == before[n]
            && ps[|kept| := q] == (kept + [q]) + before[n + 1..]
            && ps[..|kept|] + ps[|kept| + 1..] == kept + before[n + 1..]
            && ps == (kept + [before[n]]) + before[n + 1..]
  {
  }

  lemma UnlistedKeysHaveNoRequests(cache: map<Key, Info>, dom: map<nat, Element>, attached: map<nat, string>,
                                   requested: set<Request>)
    requires Consistent(cache, dom, attached, requested)
    ensures forall r :: r in requested ==> r.key in cache
  {
  }

  lemma DeactivatedFollows(cache: map<Key, Info>, dom: map<nat, Element>, attached: map<nat, string>,
                           requested: set<Request>, k: Key)
    requires Consistent(cache, dom, attached, requested) && k in cache
    ensures Follows(k, Deactivated(cache[k]), requested, set r | r in requested && r.key != k)
  {
    hide EntryOk;
    forall x, y
      ensures !Wants(Deactivated(cache[k]), x, y)
    {
    }
  }

  lemma RenderStep(attached: map<nat, string>, layer: string, before: seq<Position>, n: nat)
    requires n < |before|
    ensures var p := before[n];
            && Kept(before[..n + 1]) == Kept(before[..n]) + (if p.active then [p.(rendered := true)] else [])
            && AfterRender(attached, layer, before[..n + 1]) ==
                 var a := AfterRender(attached, layer, before[..n]);
                 if p.active then if p.rendered then a else a[p.element := layer]
                 else if p.rendered then a - {p.element} else a
  {
    assert before[..n + 1][..n] == before[..n];
  }

  lemma RenderNothing(attached: map<nat, string>, layer: string, before: seq<Position>)
    ensures Kept(before[..0]) == [] && AfterRender(attached, layer, before[..0]) == attached
  {
  }

  lemma FirstElementKnown(cache: map<Key, Info>, dom: map<nat, Element>, attached: map<nat, string>,
                          requested: set<Request>, k: Key)
    requires Consistent(cache, dom, attached, requested) && k in cache
    ensures cache[k].element in dom
  {
    assert EntryOk(k, cache[k], dom, attached) && HasElement(cache[k], cache[k].element);
  }

  /** A position that is requested again is active again. */
  lemma Reactivated(cache: map<Key, Info>, dom: map<nat, Element>, attached: map<nat, string>, requested: set<Request>,
                    k: Key, i: nat)
    requires Consistent(cache, dom, attached, requested) && k in cache && i < |cache[k].positions|
    ensures var p := cache[k].positions[i];
            var info' := cache[k].(positions := cache[k].positions[i := p.(active := true)]);
            Consistent(cache[k := info'], dom, attached, requested + {Request(k, p.x, p.y)})
  {
    var p := cache[k].positions[i];
    var info' := cache[k].(positions := cache[k].positions[i := p.(active := true)]);
    ReactivatedFollows(k, cache[k], i, requested, dom, attached);
    ChangeActive(cache, dom, attached, requested, k, info', requested + {Request(k, p.x, p.y)});
    hide Consistent;
  }

  lemma ReactivatedFollows(k: Key, info: Info, i: nat, requested: set<Request>, dom: map<nat, Element>,
                           attached: map<nat, string>)
    requires i < |info.positions| && EntryOk(k, info, dom, attached)
    requires forall x, y {:trigger Request(k, x, y)} :: Request(k, x, y) in requested <==> Wants(info, x, y)
    ensures var p := info.positions[i];
            var info' := info.(positions := info.positions[i := p.(active := true)]);
            SameButActive(info, info') && Follows(k, info', requested, requested + {Request(k, p.x, p.y)})
  {
    var p := info.positions[i];
    var ps' := info.positions[i := p.(active := true)];
    var info' := info.(positions := ps');
    forall x, y
      ensures Wants(info', x, y) <==> Wants(info, x, y) || (x == p.x && y == p.y)
    {
      assert ps'[i].active;
      if Wants(info, x, y) {
        var j :| 0 <= j < |info.positions| && info.positions[j].active && info.positions[j].x
            == x && info.positions[j].y == y;
        assert ps'[j].active && ps'[j].x == x && ps'[j].y == y;
      }
    }
  }

  lemma RemovedFollows(k: Key, info: Info, info': Info, x: real, y: real, requested: set<Request>)
    requires info'.element == info.element && |info'.positions| == |info.positions|
    requires forall j {:trigger info'.positions[j]} :: 0 <= j < |info.positions| ==>
               info'.positions[j] == if info.positions[j].x == x && info.positions[j].y == y
                                     then info.positions[j].(active := false) else info.positions[j]
    requires forall x, y {:trigger Request(k, x, y)} :: Request(k, x, y) in requested <==> Wants(info, x, y)
    ensures SameButActive(info, info') && Follows(k, info', requested, requested - {Request(k, x, y)})
  {
    forall x', y'
      ensures Wants(info', x', y') <==> Wants(info, x', y') && !(x' == x && y' == y)
    {
      if Wants(info, x', y') && !(x' == x && y' == y) {
        var j :| 0 <= j < |info.positions| && info.positions[j].active && info.positions[j].x
            == x' && info.positions[j].y == y';
        assert info'.positions[j] == info.positions[j];
      }
    }
  }
}
