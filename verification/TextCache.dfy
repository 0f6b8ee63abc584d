/** The mark-and-sweep text overlay of flot's Canvas (jquery.flot.js): getTextInfo, addText, removeText
    and render.

    The page is kept as what it shows: which elements are attached to which text layer, and the text,
    style and place of every element. The source's nested maps layer -> style -> text are one map here. */
module TextCache {
  datatype Key = Key(layer: string, style: string, text: string)

  datatype Request = Request(key: Key, x: real, y: real)

  datatype Position = Position(active: bool, rendered: bool, element: nat, x: real, y: real)

  datatype Info = Info(width: real, height: real, element: nat, positions: seq<Position>)

  /** An element of the page: its content, fixed when it is made or cloned, and its CSS place. */
  datatype Element = Element(style: string, text: string, x: real, y: real)

  datatype HAlign = Left | Center | Right

  datatype VAlign = AtTop | Middle | AtBottom

  // ---------------------------------------------------------------- invariants

  ghost predicate HasElement(info: Info, e: nat) {
    e == info.element || exists i :: 0 <= i < |info.positions| && info.positions[i].element == e
  }

  /** The positions of one text: no two at the same place, no two with the same element. */
  ghost predicate DistinctPositions(ps: seq<Position>) {
    forall i, j :: 0 <= i < j < |ps| ==>
      && ps[i].element != ps[j].element
      && (ps[i].x != ps[j].x || ps[i].y != ps[j].y)
  }

  /** The elements of one text exist, show that text at their positions, and those rendered, and only
      those, are attached to its layer. */
  ghost predicate EntryOk(k: Key, info: Info, dom: map<nat, Element>, attached: map<nat, string>) {
    && DistinctPositions(info.positions)
    && info.element in dom && dom[info.element].style == k.style && dom[info.element].text == k.text
    && (forall i {:trigger info.positions[i]} :: 0 <= i < |info.positions| ==>
          var p := info.positions[i];
          && p.element in dom && dom[p.element] == Element(k.style, k.text, p.x, p.y)
          && (p.rendered <==> p.element in attached)
          && (p.rendered ==> attached[p.element] == k.layer))
    && (info.element in attached ==> OwnedBy(info, info.element))
  }

  ghost predicate Separate(cache: map<Key, Info>) {
    forall k, k', e :: k in cache && k' in cache && k != k' && HasElement(cache[k], e) ==> !HasElement(cache[k'], e)
  }

  /** Every attached element belongs to a rendered position. */
  ghost predicate Owned(cache: map<Key, Info>, attached: map<nat, string>) {
    forall e :: e in attached ==> exists k :: k in cache && OwnedBy(cache[k], e)
  }

  ghost predicate OwnedBy(info: Info, e: nat) {
    exists i :: 0 <= i < |info.positions| && info.positions[i].element == e && info.positions[i].rendered
  }

  ghost predicate Wants(info: Info, x: real, y: real) {
    exists i :: 0 <= i < |info.positions| && info.positions[i].active
                && info.positions[i].x == x && info.positions[i].y == y
  }

  ghost predicate Reflects(cache: map<Key, Info>, requested: set<Request>) {
    forall r :: r in requested <==> r.key in cache && Wants(cache[r.key], r.x, r.y)
  }

  ghost predicate Consistent(cache: map<Key, Info>, dom: map<nat, Element>, attached: map<nat, string>,
                             requested: set<Request>)
  {
    && (forall k :: k in cache ==> EntryOk(k, cache[k], dom, attached))
    && Separate(cache)
    && Owned(cache, attached)
    && Reflects(cache, requested)
  }

  /** What an attached element shows. */
  ghost function Picture(dom: map<nat, Element>, attached: map<nat, string>, e: nat): Request
    requires e in dom && e in attached
  {
    Request(Key(attached[e], dom[e].style, dom[e].text), dom[e].x, dom[e].y)
  }

  /** The page shows exactly the requested texts, each once. */
  ghost predicate ShowsExactly(dom: map<nat, Element>, attached: map<nat, string>, requested: set<Request>) {
    && (forall e :: e in attached ==> e in dom && Picture(dom, attached, e) in requested)
    && (forall r :: r in requested ==> exists e :: e in attached && e in dom && Picture(dom, attached, e) == r)
    && (forall e, e' ::
          (e in attached && e' in attached && e in dom && e' in dom
           && Picture(dom, attached, e) == Picture(dom, attached, e')) ==> e == e')
  }

  /** Every position is wanted and rendered, and no text is cached without a position. */
  ghost predicate Swept(info: Info) {
    && info.positions != []
    && forall i {:trigger info.positions[i]} :: 0 <= i < |info.positions| ==>
        info.positions[i].active && info.positions[i].rendered
  }

  lemma SweptShowsExactly(cache: map<Key, Info>, dom: map<nat, Element>, attached: map<nat, string>,
                          requested: set<Request>)
    requires Consistent(cache, dom, attached, requested)
    requires forall k :: k in cache ==> Swept(cache[k])
    ensures ShowsExactly(dom, attached, requested)
    ensures forall k :: k in cache ==> cache[k].positions != []
  {
    forall e | e in attached
      ensures e in dom && Picture(dom, attached, e) in requested
    {
      var k, i := Owner(cache, dom, attached, requested, e);
      assert Wants(cache[k], cache[k].positions[i].x, cache[k].positions[i].y);
    }
    forall r | r in requested
      ensures exists e :: e in attached && e in dom && Picture(dom, attached, e) == r
    {
      var ps := cache[r.key].positions;
      var i :| 0 <= i < |ps| && ps[i].active && ps[i].x == r.x && ps[i].y == r.y;
      assert EntryOk(r.key, cache[r.key], dom, attached) && Swept(cache[r.key]);
      assert Picture(dom, attached, ps[i].element) == r;
    }
    forall e, e' | e in attached && e' in attached && e in dom && e' in dom
                   && Picture(dom, attached, e) == Picture(dom, attached, e')
      ensures e == e'
    {
      var k, i := Owner(cache, dom, attached, requested, e);
      var k', i' := Owner(cache, dom, attached, requested, e');
      assert k == k';
      assert EntryOk(k, cache[k], dom, attached);
    }
  }

  lemma Owner(cache: map<Key, Info>, dom: map<nat, Element>, attached: map<nat, string>, requested: set<Request>,
              e: nat)
    returns (k: Key, i: nat)
    requires Consistent(cache, dom, attached, requested) && e in attached
    ensures k in cache && i < |cache[k].positions| && cache[k].positions[i].element == e
    ensures e in dom && Picture(dom, attached, e) == Request(k, cache[k].positions[i].x, cache[k].positions[i].y)
  {
    k :| k in cache && OwnedBy(cache[k], e);
    i :| 0 <= i < |cache[k].positions| && cache[k].positions[i].element == e && cache[k].positions[i].rendered;
    assert EntryOk(k, cache[k], dom, attached);
  }

  // ---------------------------------------------------------------- replacing one entry

  /** An element of another text is not touched. */
  ghost predicate LeavesOthers(cache: map<Key, Info>, k: Key, info': Info,
                               dom: map<nat, Element>, attached: map<nat, string>,
                               dom': map<nat, Element>, attached': map<nat, string>)
  {
    forall k', e :: k' in cache && k' != k && HasElement(cache[k'], e) ==>
      && !HasElement(info', e)
      && (e in dom ==> e in dom' && dom'[e] == dom[e])
      && (e in attached <==> e in attached')
      && (e in attached ==> attached'[e] == attached[e])
  }

  /** Requests for one text follow its entry; the others stay. */
  ghost predicate Follows(k: Key, info': Info, requested: set<Request>, requested': set<Request>) {
    && (forall r: Request :: r.key != k ==> (r in requested <==> r in requested'))
    && (forall x, y {:trigger Request(k, x, y)} :: Request(k, x, y) in requested' <==> Wants(info', x, y))
  }

  lemma OtherEntryOk(k: Key, info: Info, dom: map<nat, Element>, attached: map<nat, string>,
                     dom': map<nat, Element>, attached': map<nat, string>)
    requires EntryOk(k, info, dom, attached)
    requires forall e :: HasElement(info, e) ==>
               && (e in dom ==> e in dom' && dom'[e] == dom[e])
               && (e in attached <==> e in attached')
               && (e in attached ==> attached'[e] == attached[e])
    ensures EntryOk(k, info, dom', attached')
  {
    assert HasElement(info, info.element);
    forall i | 0 <= i < |info.positions|
      ensures HasElement(info, info.positions[i].element)
    {
    }
  }

  lemma ReplaceEntry(cache: map<Key, Info>, dom: map<nat, Element>, attached: map<nat, string>, requested: set<Request>,
                     k: Key, info': Info, dom': map<nat, Element>, attached': map<nat, string>,
                     requested': set<Request>)
    requires Consistent(cache, dom, attached, requested)
    requires EntryOk(k, info', dom', attached')
    requires LeavesOthers(cache, k, info', dom, attached, dom', attached')
    requires Follows(k, info', requested, requested')
    requires forall e :: e in attached' ==>
        OwnedBy(info', e) || (e in attached && !(k in cache && OwnedBy(cache[k], e)))
    ensures Consistent(cache[k := info'], dom', attached', requested')
  {
    hide EntryOk;
    var cache' := cache[k := info'];
    forall k' | k' in cache'
      ensures EntryOk(k', cache'[k'], dom', attached')
    {
      if k' != k {
        OtherEntryOk(k', cache[k'], dom, attached, dom', attached');
      }
    }
    forall e | e in attached'
      ensures exists k' :: k' in cache' && OwnedBy(cache'[k'], e)
    {
      if OwnedBy(info', e) {
        assert cache'[k] == info';
      } else {
        var k' :| k' in cache && OwnedBy(cache[k'], e);
        assert cache'[k'] == cache[k'];
      }
    }
    forall r
      ensures r in requested' <==> r.key in cache' && Wants(cache'[r.key], r.x, r.y)
    {
      assert r == Request(r.key, r.x, r.y);
    }
  }

  lemma DropEntry(cache: map<Key, Info>, dom: map<nat, Element>, attached: map<nat, string>, requested: set<Request>,
                  k: Key)
    requires Consistent(cache, dom, attached, requested) && k in cache && cache[k].positions == []
    ensures Consistent(cache - {k}, dom, attached, requested)
  {
    var cache' := cache - {k};
    forall e | e in attached
      ensures exists k' :: k' in cache' && OwnedBy(cache'[k'], e)
    {
      var k' :| k' in cache && OwnedBy(cache[k'], e);
      assert k' != k && cache'[k'] == cache[k'];
    }
  }

  lemma ElementsKnown(cache: map<Key, Info>, dom: map<nat, Element>, attached: map<nat, string>,
                      requested: set<Request>)
    requires Consistent(cache, dom, attached, requested)
    ensures forall k, e :: k in cache && HasElement(cache[k], e) ==> e in dom
    ensures forall e :: e in attached ==> e in dom
  {
    forall k, e | k in cache && HasElement(cache[k], e)
      ensures e in dom
    {
      assert EntryOk(k, cache[k], dom, attached);
    }
    forall e | e in attached
      ensures e in dom
    {
      var k, i := Owner(cache, dom, attached, requested, e);
    }
  }

  /** A change of own elements, or of elements that did not exist, leaves the elements of other texts. */
  lemma OnlyOwnElements(cache: map<Key, Info>, k: Key, info': Info, dom: map<nat, Element>, attached: map<nat, string>,
                        dom': map<nat, Element>, attached': map<nat, string>)
    requires Separate(cache) && k in cache
    requires forall k', e :: k' in cache && HasElement(cache[k'], e) ==> e in dom
    requires forall e :: HasElement(info', e) ==> HasElement(cache[k], e) || e !in dom
    requires forall e :: e in dom && !HasElement(cache[k], e) ==>
               && e in dom' && dom'[e] == dom[e]
               && (e in attached <==> e in attached')
               && (e in attached ==> attached'[e] == attached[e])
    ensures LeavesOthers(cache, k, info', dom, attached, dom', attached')
  {
    hide HasElement;
  }

  // ---------------------------------------------------------------- the steps of the operations

  lemma NewEntry(cache: map<Key, Info>, dom: map<nat, Element>, attached: map<nat, string>, requested: set<Request>,
                 k: Key, info': Info, element: Element)
    requires Consistent(cache, dom, attached, requested) && k !in cache
    requires info'.positions == [] && info'.element !in dom
    requires element.style == k.style && element.text == k.text
    ensures Consistent(cache[k := info'], dom[info'.element := element], attached, requested)
  {
    ElementsKnown(cache, dom, attached, requested);
    var dom' := dom[info'.element := element];
    assert EntryOk(k, info', dom', attached);
    NewEntryLeaves(cache, dom, attached, k, info', element);
    assert Follows(k, info', requested, requested);
    hide Consistent, LeavesOthers, Follows, EntryOk;
    ReplaceEntry(cache, dom, attached, requested, k, info', dom', attached, requested);
  }

  lemma NewEntryLeaves(cache: map<Key, Info>, dom: map<nat, Element>, attached: map<nat, string>, k: Key, info': Info,
                       element: Element)
    requires info'.positions == [] && info'.element !in dom
    requires forall k', e :: k' in cache && HasElement(cache[k'], e) ==> e in dom
    ensures LeavesOthers(cache, k, info', dom, attached, dom[info'.element := element], attached)
  {
    assert forall e :: HasElement(info', e) ==> e == info'.element;
    hide HasElement;
  }

  lemma NewPosition(cache: map<Key, Info>, dom: map<nat, Element>, attached: map<nat, string>, requested: set<Request>,
                    k: Key, p: Position)
    requires Consistent(cache, dom, attached, requested) && k in cache
    requires p.active && !p.rendered
    requires if cache[k].positions == [] then p.element == cache[k].element else p.element !in dom
    requires forall i {:trigger cache[k].positions[i]} :: 0 <= i < |cache[k].positions| ==>
               cache[k].positions[i].x != p.x || cache[k].positions[i].y != p.y
    ensures Consistent(cache[k := cache[k].(positions := cache[k].positions + [p])],
                       dom[p.element := Element(k.style, k.text, p.x, p.y)], attached,
                           requested + {Request(k, p.x, p.y)})
  {
    hide HasElement, Wants, LeavesOthers;
    ElementsKnown(cache, dom, attached, requested);
    var info := cache[k];
    assert EntryOk(k, info, dom, attached);
    FirstElement(info);
    var info' := info.(positions := info.positions + [p]);
    var dom' := dom[p.element := Element(k.style, k.text, p.x, p.y)];
    var requested' := requested + {Request(k, p.x, p.y)};
    NewPositionEntry(k, info, p, dom, attached);
    NewPositionFollows(k, info, p, requested);
    NewPositionElements(info, p);
    OnlyOwnElements(cache, k, info', dom, attached, dom', attached);
    hide Consistent, LeavesOthers, EntryOk, Follows, OwnedBy;
    ReplaceEntry(cache, dom, attached, requested, k, info', dom', attached, requested');
  }

  lemma FirstElement(info: Info)
    ensures HasElement(info, info.element)
  {
  }

  lemma NewPositionFollows(k: Key, info: Info, p: Position, requested: set<Request>)
    requires p.active
    requires forall x, y {:trigger Request(k, x, y)} :: Request(k, x, y) in requested <==> Wants(info, x, y)
    ensures Follows(k, info.(positions := info.positions + [p]), requested, requested + {Request(k, p.x, p.y)})
  {
    var info' := info.(positions := info.positions + [p]);
    forall x, y
      ensures Wants(info', x, y) <==> Wants(info, x, y) || (x == p.x && y == p.y)
    {
      assert info'.positions[|info.positions|] == p;
      assert forall i :: 0 <= i < |info.positions| ==> info'.positions[i] == info.positions[i];
    }
    hide Wants;
  }

  lemma NewPositionElements(info: Info, p: Position)
    ensures var info' := info.(positions := info.positions + [p]);
            && (forall e :: HasElement(info', e) <==> HasElement(info, e) || e == p.element)
            && (forall e :: OwnedBy(info, e) ==> OwnedBy(info', e))
  {
    var ps' := info.positions + [p];
    assert ps'[|info.positions|] == p;
    assert forall i :: 0 <= i < |info.positions| ==> ps'[i] == info.positions[i];
  }

  lemma NewPositionEntry(k: Key, info: Info, p: Position, dom: map<nat, Element>, attached: map<nat, string>)
    requires EntryOk(k, info, dom, attached) && !p.rendered && p.element !in attached
    requires if info.positions == [] then p.element == info.element else p.element !in dom
    requires forall i {:trigger info.positions[i]} :: 0 <= i < |info.positions| ==>
               info.positions[i].x != p.x || info.positions[i].y != p.y
    ensures EntryOk(k, info.(positions := info.positions + [p]), dom[p.element := Element(k.style, k.text, p.x, p.y)],
                    attached)
  {
    var info' := info.(positions := info.positions + [p]);
    if info.element in attached {
      var i :| 0 <= i < |info.positions| && info.positions[i].element == info.element && info.positions[i].rendered;
      assert info'.positions[i] == info.positions[i];
    }
  }

  /** Only the active flags of one text change. */
  ghost predicate SameButActive(info: Info, info': Info) {
    && info'.element == info.element
    && |info'.positions| == |info.positions|
    && forall i {:trigger info'.positions[i]} {:trigger info.positions[i]} :: 0 <= i < |info.positions| ==>
         info'.positions[i] == info.positions[i].(active := info'.positions[i].active)
  }

  lemma ChangeActive(cache: map<Key, Info>, dom: map<nat, Element>, attached: map<nat, string>, requested: set<Request>,
                     k: Key, info': Info, requested': set<Request>)
    requires Consistent(cache, dom, attached, requested) && k in cache && SameButActive(cache[k], info')
    requires Follows(k, info', requested, requested')
    ensures Consistent(cache[k := info'], dom, attached, requested')
  {
    var info := cache[k];
    assert EntryOk(k, info, dom, attached);
    assert EntryOk(k, info', dom, attached);
    forall e
      ensures HasElement(info', e) <==> HasElement(info, e)
      ensures OwnedBy(info', e) <==> OwnedBy(info, e)
    {
      SameElements(info, info', e);
    }
    ReplaceEntry(cache, dom, attached, requested, k, info', dom, attached, requested');
  }

  lemma SameElements(info: Info, info': Info, e: nat)
    requires SameButActive(info, info')
    ensures HasElement(info', e) <==> HasElement(info, e)
    ensures OwnedBy(info', e) <==> OwnedBy(info, e)
  {
  }

  // ---------------------------------------------------------------- the sweep over one text

  /** The positions a render keeps, all of them rendered. */
  ghost function Kept(ps: seq<Position>): seq<Position> {
    if ps == [] then []
    else
      var p := ps[|ps| - 1];
      Kept(ps[..|ps| - 1]) + if p.active then [p.(rendered := true)] else []
  }

  /** What is attached after a render of one text. */
  ghost function AfterRender(attached: map<nat, string>, layer: string, ps: seq<Position>): map<nat, string> {
    if ps == [] then attached
    else
      var p := ps[|ps| - 1];
      var before := AfterRender(attached, layer, ps[..|ps| - 1]);
      if p.active then if p.rendered then before else before[p.element := layer]
      else if p.rendered then before - {p.element} else before
  }

  lemma {:induction false} KeptMembers(ps: seq<Position>)
    ensures forall q :: q in Kept(ps) <==> exists i :: 0 <= i < |ps| && ps[i].active && q == ps[i].(rendered := true)
  {
    if ps != [] {
      var init, p := ps[..|ps| - 1], ps[|ps| - 1];
      KeptMembers(init);
      forall q | q in Kept(ps)
        ensures exists i :: 0 <= i < |ps| && ps[i].active && q == ps[i].(rendered := true)
      {
        if q in Kept(init) {
          var i :| 0 <= i < |init| && init[i].active && q == init[i].(rendered := true);
          assert ps[i] == init[i];
        } else {
          assert ps[|ps| - 1] == p;
        }
      }
      forall i | 0 <= i < |ps| && ps[i].active
        ensures ps[i].(rendered := true) in Kept(ps)
      {
        if i < |init| {
          assert init[i] == ps[i];
          assert ps[i].(rendered := true) in Kept(init);
        }
      }
    }
  }

  lemma {:induction false} KeptDistinct(ps: seq<Position>)
    requires DistinctPositions(ps)
    ensures DistinctPositions(Kept(ps))
  {
    if ps != [] {
      var init, p := ps[..|ps| - 1], ps[|ps| - 1];
      KeptDistinct(init);
      KeptMembers(init);
      forall j | 0 <= j < |Kept(init)|
        ensures Kept(init)[j].element != p.element && (Kept(init)[j].x != p.x || Kept(init)[j].y != p.y)
      {
        assert Kept(init)[j] in Kept(init);
        var i :| 0 <= i < |init| && init[i].active && Kept(init)[j] == init[i].(rendered := true);
        assert ps[i] == init[i];
      }
    }
  }

  lemma KeptHas(ps: seq<Position>, i: nat) returns (j: nat)
    requires i < |ps| && ps[i].active
    ensures j < |Kept(ps)| && Kept(ps)[j] == ps[i].(rendered := true)
  {
    KeptMembers(ps);
    assert ps[i].(rendered := true) in Kept(ps);
    j :| 0 <= j < |Kept(ps)| && Kept(ps)[j] == ps[i].(rendered := true);
  }

  lemma {:induction false} AfterRenderOthers(attached: map<nat, string>, layer: string, ps: seq<Position>, e: nat)
    requires forall i :: 0 <= i < |ps| ==> ps[i].element != e
    ensures e in AfterRender(attached, layer, ps) <==> e in attached
    ensures e in attached ==> AfterRender(attached, layer, ps)[e] == attached[e]
  {
    if ps != [] {
      AfterRenderOthers(attached, layer, ps[..|ps| - 1], e);
    }
  }

  lemma {:induction false} AfterRenderMembers(attached: map<nat, string>, layer: string, ps: seq<Position>, i: nat)
    requires i < |ps| && DistinctPositions(ps)
    requires ps[i].rendered <==> ps[i].element in attached
    requires ps[i].rendered ==> attached[ps[i].element] == layer
    ensures ps[i].element in AfterRender(attached, layer, ps) <==> ps[i].active
    ensures ps[i].active ==> AfterRender(attached, layer, ps)[ps[i].element] == layer
  {
    var init := ps[..|ps| - 1];
    if i < |init| {
      assert init[i] == ps[i];
      AfterRenderMembers(attached, layer, init, i);
    } else {
      AfterRenderOthers(attached, layer, init, ps[i].element);
    }
  }

  lemma SweptEntry(k: Key, info: Info, dom: map<nat, Element>, attached: map<nat, string>)
    requires EntryOk(k, info, dom, attached)
    ensures var info' := info.(positions := Kept(info.positions));
            && EntryOk(k, info', dom, AfterRender(attached, k.layer, info.positions))
            && (forall i {:trigger info'.positions[i]} :: 0 <= i < |info'.positions| ==>
                info'.positions[i].active && info'.positions[i].rendered)
            && (forall x, y :: Wants(info', x, y) <==> Wants(info, x, y))
            && (forall e :: HasElement(info', e) ==> HasElement(info, e))
            && (forall e :: HasElement(info, e) && e in AfterRender(attached, k.layer, info.positions) ==>
                OwnedBy(info', e))
  {
    var ps := info.positions;
    var qs := Kept(ps);
    var info' := info.(positions := qs);
    var attached' := AfterRender(attached, k.layer, ps);
    KeptMembers(ps);
    KeptDistinct(ps);
    forall j | 0 <= j < |qs|
      ensures exists i :: 0 <= i < |ps| && ps[i].active && qs[j] == ps[i].(rendered := true)
      ensures qs[j].element in attached' && attached'[qs[j].element] == k.layer
    {
      assert qs[j] in qs;
      var i :| 0 <= i < |ps| && ps[i].active && qs[j] == ps[i].(rendered := true);
      AfterRenderMembers(attached, k.layer, ps, i);
    }
    forall e | HasElement(info, e) && e in attached'
      ensures OwnedBy(info', e)
    {
      if i :| 0 <= i < |ps| && ps[i].element == e {
        AfterRenderMembers(attached, k.layer, ps, i);
        var j := KeptHas(ps, i);
      } else {
        AfterRenderOthers(attached, k.layer, ps, e);
      }
    }
    forall x, y
      ensures Wants(info', x, y) <==> Wants(info, x, y)
    {
      if Wants(info, x, y) {
        var i :| 0 <= i < |ps| && ps[i].active && ps[i].x == x && ps[i].y == y;
        var j := KeptHas(ps, i);
      }
    }
    if qs == [] && info.element in attached' {
      assert HasElement(info, info.element);
    }
  }
}
