/** Exactly when a second synchronization changes nothing. */
module SyncSettles {
  import opened Wrappers
  import opened ChildrenLists
  import opened SyncTree
  import opened SyncCounts
  import opened SyncShape
  import opened SyncAcyclic
  import opened SyncOrdering
  import opened SyncDocuments
  import opened SyncFrame
  import opened SyncSorting
  import opened SyncFixpoint
  import opened SyncRepeats
  import opened SyncStable

  // The items that a step adds.

  /** The items from `n` on are among these, and these are all there. */
  ghost predicate AddedAmong(items: seq<Item>, n: nat, named: set<Item>) {
    (forall y :: n <= y < |items| ==> items[y] in named) && forall item :: item in named ==> item in items
  }

  lemma {:induction false} LayerAddsItems(f: Flags, s: State, el: Element, parent: Option<nat>)
    requires Indexed(s.tree) && (parent.Some? ==> s.tree.Has(parent.value))
    requires parent.Some? && el.layers != [] ==> Placeable(s.tree, parent)
    ensures AddedAmong(SyncLayer(f, s, el, parent).0.tree.items, |s.tree.items|, ElementItems(ItemOf(el, parent), el))
    decreases el, 1
  {
    var (got, id) := GetItem(f, s, el, parent);
    var (inside, server) := SyncInside(f, got, el.layers, id);
    OrderIndexed(f, inside.tree, id, server);
    InsideAddsItems(f, got, el.layers, id);
    assert inside.tree.items[id] == ItemOf(el, parent);
    assert |got.tree.items| <= |s.tree.items| + 1;
  }

  lemma {:induction false} InsideAddsItems(f: Flags, s: State, layers: seq<Element>, id: nat)
    requires Indexed(s.tree) && s.tree.Has(id) && (layers == [] || Placeable(s.tree, Some(id)))
    ensures AddedAmong(SyncInside(f, s, layers, id).0.tree.items, |s.tree.items|, InsideItems(layers))
    decreases layers, 0
  {
    if layers != [] {
      LayerAddsItems(f, s, layers[0], Some(id));
      var first := SyncLayer(f, s, layers[0], Some(id)).0;
      InsideAddsItems(f, first, layers[1..], id);
      AddedBoth(s.tree.items, first.tree.items, SyncInside(f, s, layers, id).0.tree.items,
                ElementItems(Inner(layers[0]), layers[0]), InsideItems(layers[1..]));
    }
  }

  lemma AddedBoth(items: seq<Item>, first: seq<Item>, after: seq<Item>, a: set<Item>, b: set<Item>)
    requires items <= first <= after && AddedAmong(first, |items|, a) && AddedAmong(after, |first|, b)
    ensures AddedAmong(after, |items|, a + b)
  {
    forall item | item in a ensures item in after {
      assert item in first;
    }
  }

  // The rows that a step adds.

  /** The row of the item in the list of its parent, when it was added. */
  function OwnRow(t: Tree, el: Element, parent: Option<nat>, id: nat): seq<Link>
    requires Placeable(t, parent)
  {
    if id >= |t.items| && Under(t, el, parent) != [] then [Link(id, 0)] else []
  }

  lemma GetItemRows(f: Flags, s: State, el: Element, parent: Option<nat>, x: nat)
    requires !f.forceParents && Sound(s.tree) && Placeable(s.tree, parent) && s.tree.Has(x)
    ensures var (got, id) := GetItem(f, s, el, parent);
            got.tree.links[x] == s.tree.links[x] + if parent == Some(x) then OwnRow(s.tree, el, parent, id) else []
  {
  }

  lemma {:induction false} LayerRows(f: Flags, s: State, el: Element, parent: Option<nat>, x: nat)
    requires !f.forceParents && Sound(s.tree) && Placeable(s.tree, parent) && DistinctElement(ItemOf(el, parent), el)
    requires s.tree.Has(x) && s.tree.items[x] !in ElementItems(ItemOf(el, parent), el)
    ensures var (after, id) := SyncLayer(f, s, el, parent);
            after.tree.links[x] == s.tree.links[x] + if parent == Some(x) then OwnRow(s.tree, el, parent, id) else []
    decreases el, 1
  {
    GetItemRows(f, s, el, parent, x);
    GetItemSound(f, s, el, parent);
    var (got, id) := GetItem(f, s, el, parent);
    assert x != id;
    InsideRows(f, got, el.layers, id, x);
    var (inside, server) := SyncInside(f, got, el.layers, id);
    OtherRows(f, inside.tree, id, server, x);
    assert got.tree.links[x] + [] == got.tree.links[x];
  }

  lemma OtherRows(f: Flags, t: Tree, id: nat, server: seq<nat>, x: nat)
    requires Indexed(t) && t.Has(id) && (forall k :: 0 <= k < |server| ==> server[k] < |t.items|) && t.Has(x) && x != id
    ensures Order(f, t, id, server).Lists() && Order(f, t, id, server).Has(x)
    ensures Order(f, t, id, server).links[x] == t.links[x]
  {
    OrderIndexed(f, t, id, server);
  }

  /** What the first of the inner elements adds to what the server gives. */
  lemma FirstServed(f: Flags, s: State, layers: seq<Element>, id: nat)
    requires Sound(s.tree) && s.tree.Has(id) && layers != [] && Placeable(s.tree, Some(id))
    ensures var (first, child) := SyncLayer(f, s, layers[0], Some(id));
            var (after, server) := SyncInside(f, first, layers[1..], id);
            SyncInside(f, s, layers, id)
            == (after, (if s.tree.items[id].kind == Theme && layers[0].layers == [] then [] else [child]) + server)
  {
  }

  lemma {:induction false} InsideRows(f: Flags, s: State, layers: seq<Element>, id: nat, x: nat)
    requires !f.forceParents && Sound(s.tree) && s.tree.Has(id) && (layers == [] || Placeable(s.tree, Some(id)))
    requires DistinctInside(layers) && s.tree.Has(x) && s.tree.items[x] !in InsideItems(layers)
    ensures var (after, server) := SyncInside(f, s, layers, id);
            after.tree.links[x] == s.tree.links[x] + if x == id then NewRows(server, |s.tree.items|) else []
    decreases layers, 0
  {
    if layers == [] {
      assert s.tree.links[x] + [] == s.tree.links[x];
    } else {
      LayerRows(f, s, layers[0], Some(id), x);
      LayerSound(f, s, layers[0], Some(id));
      var (first, child) := SyncLayer(f, s, layers[0], Some(id));
      InsideRows(f, first, layers[1..], id, x);
      var (after, server) := SyncInside(f, first, layers[1..], id);
      LaterNew(f, s, layers, id);
      FirstServed(f, s, layers, id);
      RowsOfFirst(s.tree, layers[0], id, child, server, s.tree.links[x]);
    }
  }

  /** What later elements give was not added by the first one. */
  lemma LaterNew(f: Flags, s: State, layers: seq<Element>, id: nat)
    requires Sound(s.tree) && Placeable(s.tree, Some(id)) && layers != [] && DistinctInside(layers)
    ensures var first := SyncLayer(f, s, layers[0], Some(id)).0;
            var server := SyncInside(f, first, layers[1..], id).1;
            NewRows(server, |s.tree.items|) == NewRows(server, |first.tree.items|)
  {
    LayerSound(f, s, layers[0], Some(id));
    var first := SyncLayer(f, s, layers[0], Some(id)).0;
    var (after, server) := SyncInside(f, first, layers[1..], id);
    LayerAddsItems(f, s, layers[0], Some(id));
    InsideServer(f, first, layers[1..], id);
    SameNew(s.tree.items, first.tree.items, after.tree.items, server,
            ElementItems(Inner(layers[0]), layers[0]), InsideItems(layers[1..]));
  }

  lemma SameNew(items: seq<Item>, first: seq<Item>, after: seq<Item>, server: seq<nat>, a: set<Item>, b: set<Item>)
    requires items <= first <= after && AddedAmong(first, |items|, a) && Among(after, server, b) && a !! b
    ensures NewRows(server, |items|) == NewRows(server, |first|)
    decreases |server|
  {
    if server != [] {
      forall y | |items| <= y < |first| ensures after[y] !in b {
        assert first[y] in a;
      }
      assert after[server[0]] in b;
      assert forall k :: 0 <= k < |server[1..]| ==> server[1..][k] == server[k + 1];
      SameNew(items, first, after, server[1..], a, b);
    }
  }

  lemma Joined(a: seq<Link>, b: seq<Link>, c: seq<Link>)
    ensures a + b + c == a + (b + c)
  {
  }

  lemma RowsOfFirst(t: Tree, el: Element, id: nat, child: nat, server: seq<nat>, links: seq<Link>)
    requires Placeable(t, Some(id))
    ensures var all := (if t.items[id].kind == Theme && el.layers == [] then [] else [child]) + server;
            links + OwnRow(t, el, Some(id), child) + NewRows(server, |t.items|) == links + NewRows(all, |t.items|)
    ensures links + [] + [] == links + []
  {
    var own, rows := OwnRow(t, el, Some(id), child), NewRows(server, |t.items|);
    Joined(links, own, rows);
    if t.items[id].kind == Theme && el.layers == [] {
      assert [] + server == server && [] + rows == rows;
    } else {
      assert ([child] + server)[1..] == server;
    }
  }

  // What others leave alone.

  /** The rows of these items are the same in the longer tree. */
  ghost predicate SameRows(t: Tree, u: Tree, named: set<Item>) {
    && t.Lists() && u.Lists() && t.items <= u.items
    && forall x :: 0 <= x < |t.items| && t.items[x] in named ==> u.links[x] == t.links[x]
  }

  lemma SameRowsFewer(t: Tree, u: Tree, named: set<Item>, fewer: set<Item>)
    requires SameRows(t, u, named) && fewer <= named
    ensures SameRows(t, u, fewer)
  {
  }

  lemma IdsSame(items: seq<Item>, more: seq<Item>, given: seq<Item>)
    requires items <= more && Distinctive(more) && AllThere(items, given)
    ensures IdsOf(items, given) == IdsOf(more, given)
  {
    forall k | 0 <= k < |given| ensures IdOf(items, given[k]) == IdOf(more, given[k]) {
      assert given[k] in items;
      IdIn(items, given[k]);
      IdInLonger(items, more, IdOf(items, given[k]));
    }
  }

  lemma {:induction false} SettledSame(f: Flags, t: Tree, u: Tree, el: Element, parent: Option<nat>)
    requires !f.forceParents && Indexed(t) && Indexed(u) && Distinctive(u.items) && Placeable(t, parent)
    requires SameRows(t, u, ElementItems(ItemOf(el, parent), el))
    requires forall item :: item in ElementItems(ItemOf(el, parent), el) ==> item in t.items
    ensures Settled(f, t, el, parent) <==> Settled(f, u, el, parent)
    decreases el, 1
  {
    var item := ItemOf(el, parent);
    IdIn(t.items, item);
    var id := IdOf(t.items, item);
    IdInLonger(t.items, u.items, id);
    assert item in u.items by {
      assert u.items[id] == item;
    }
    forall g | g in ServedList(item, el.layers) ensures g in t.items {
      ServedInside(item, el.layers, g);
    }
    IdsSame(t.items, u.items, ServedList(item, el.layers));
    ServerIds(t.items, item, el.layers);
    ServerIds(u.items, item, el.layers);
    SameRowsFewer(t, u, ElementItems(item, el), InsideItems(el.layers));
    SettledSameInside(f, t, u, el.layers, id);
  }

  lemma {:induction false} SettledSameInside(f: Flags, t: Tree, u: Tree, layers: seq<Element>, id: nat)
    requires !f.forceParents && Indexed(t) && Indexed(u) && Distinctive(u.items)
    requires layers == [] || Placeable(t, Some(id))
    requires SameRows(t, u, InsideItems(layers)) && forall item :: item in InsideItems(layers) ==> item in t.items
    ensures SettledInside(f, t, layers, id) <==> SettledInside(f, u, layers, id)
    decreases layers, 0
  {
    if layers != [] {
      SameRowsFewer(t, u, InsideItems(layers), ElementItems(Inner(layers[0]), layers[0]));
      SameRowsFewer(t, u, InsideItems(layers), InsideItems(layers[1..]));
      SettledSame(f, t, u, layers[0], Some(id));
      SettledSameInside(f, t, u, layers[1..], id);
    }
  }

  /** The longer tree has no more of these items. */
  ghost predicate NoneAdded(items: seq<Item>, more: seq<Item>, named: set<Item>) {
    items <= more && forall y :: |items| <= y < |more| ==> more[y] !in named
  }

  lemma StableRowsSame(items: seq<Item>, more: seq<Item>, links: seq<Link>, given: seq<Item>, named: set<Item>)
    requires Distinctive(more) && NoneAdded(items, more, named) && forall g :: g in given ==> g in named
    requires forall k :: 0 <= k < |links| ==> links[k].item < |items|
    ensures StableRows(items, links, given) <==> StableRows(more, links, given)
  {
    assert AllThere(items, given) <==> AllThere(more, given) by {
      forall g | g in given && g in more ensures g in items {
        var y :| 0 <= y < |more| && more[y] == g;
      }
    }
    if AllThere(items, given) {
      IdsSame(items, more, given);
    }
    assert GivenOnce(items, links, given) <==> GivenOnce(more, links, given);
    if given != [] {
      forall k | 0 <= k < |links|
        ensures IsGiven(items, links[k], given) <==> IsGiven(more, links[k], given)
        ensures AfterGiven(items, links, given, k) <==> AfterGiven(more, links, given, k)
      {
      }
    }
  }

  lemma {:induction false} StableSame(t: Tree, u: Tree, item: Item, el: Element)
    requires Indexed(t) && Indexed(u) && Distinctive(u.items)
    requires SameRows(t, u, ElementItems(item, el)) && NoneAdded(t.items, u.items, ElementItems(item, el))
    ensures ElementStable(t, item, el) <==> ElementStable(u, item, el)
    decreases el, 1
  {
    SameRowsFewer(t, u, ElementItems(item, el), InsideItems(el.layers));
    StableSameInside(t, u, el.layers);
    if item in t.items {
      IdIn(t.items, item);
      var id := IdOf(t.items, item);
      IdInLonger(t.items, u.items, id);
      assert item in u.items by {
        assert u.items[id] == item;
      }
      forall g | g in ServedList(item, el.layers) ensures g in ElementItems(item, el) {
        ServedInside(item, el.layers, g);
      }
      StableRowsSame(t.items, u.items, t.links[id], ServedList(item, el.layers), ElementItems(item, el));
    }
  }

  lemma {:induction false} StableSameInside(t: Tree, u: Tree, layers: seq<Element>)
    requires Indexed(t) && Indexed(u) && Distinctive(u.items)
    requires SameRows(t, u, InsideItems(layers)) && NoneAdded(t.items, u.items, InsideItems(layers))
    ensures InsideStable(t, layers) <==> InsideStable(u, layers)
    decreases layers, 0
  {
    if layers != [] {
      SameRowsFewer(t, u, InsideItems(layers), ElementItems(Inner(layers[0]), layers[0]));
      SameRowsFewer(t, u, InsideItems(layers), InsideItems(layers[1..]));
      StableSame(t, u, Inner(layers[0]), layers[0]);
      StableSameInside(t, u, layers[1..]);
    }
  }

  // The list of an item.

  lemma NoRowsStable(items: seq<Item>, given: seq<Item>)
    ensures StableRows(items, [], given)
  {
    if given == [] {
      OrderedByNone(Items([]));
      assert IdsOf(items, given) == [];
    }
  }

  lemma ServesInside(f: Flags, s: State, layers: seq<Element>, id: nat)
    requires Sound(s.tree) && Placeable(s.tree, Some(id)) && DistinctInside(layers)
    ensures var (after, server) := SyncInside(f, s, layers, id);
            && Serves(s.tree.items, after.tree.items, ServedList(s.tree.items[id], layers), server)
            && server == ServerOf(after.tree.items, s.tree.items[id], layers) && Sound(after.tree)
  {
    var item := s.tree.items[id];
    var (after, server) := SyncInside(f, s, layers, id);
    var given := ServedList(item, layers);
    InsideServer(f, s, layers, id);
    InsideAddsItems(f, s, layers, id);
    ServerIds(after.tree.items, item, layers);
    forall k | 0 <= k < |server| ensures after.tree.items[server[k]] == given[k] {
      assert given[k] in given;
      ServedInside(item, layers, given[k]);
      IdIn(after.tree.items, given[k]);
    }
  }

  /** The list after the ordering step is in order exactly when it was stable before the element. */
  lemma ListSettlesIff(f: Flags, s: State, layers: seq<Element>, id: nat)
    requires f.forceOrdering && !f.forceParents && Sound(s.tree) && Placeable(s.tree, Some(id)) && DistinctInside(layers)
    requires s.tree.items[id] !in InsideItems(layers)
    ensures var (inside, server) := SyncInside(f, s, layers, id);
            var after := Order(f, inside.tree, id, server);
            && Indexed(after) && after.items == inside.tree.items
            && (Ordered(after.Children(id), ServerOf(after.items, s.tree.items[id], layers))
                <==> StableRows(s.tree.items, s.tree.links[id], ServedList(s.tree.items[id], layers)))
  {
    var (inside, server) := SyncInside(f, s, layers, id);
    ServesInside(f, s, layers, id);
    InsideRows(f, s, layers, id, id);
    OrderSettlesIff(f, inside.tree, id, server);
    SettlesIffStable(s.tree.items, inside.tree.items, ServedList(s.tree.items[id], layers), server, s.tree.links[id]);
  }

  /** Finding or adding an item does not change whether its list is stable. */
  lemma GotStable(f: Flags, s: State, el: Element, parent: Option<nat>)
    requires !f.forceParents && Sound(s.tree) && Placeable(s.tree, parent) && DistinctElement(ItemOf(el, parent), el)
    ensures var (got, id) := GetItem(f, s, el, parent); var item := ItemOf(el, parent);
            StableRows(got.tree.items, got.tree.links[id], ServedList(item, el.layers))
            <==> (item in s.tree.items ==> StableRows(s.tree.items, s.tree.links[IdOf(s.tree.items, item)], ServedList(item, el.layers)))
  {
    var (got, id) := GetItem(f, s, el, parent);
    var item := ItemOf(el, parent);
    GetItemSound(f, s, el, parent);
    if item in s.tree.items {
      IdIn(s.tree.items, item);
      IdInLonger(s.tree.items, got.tree.items, IdOf(s.tree.items, item));
      assert got.tree == s.tree && id == IdOf(s.tree.items, item);
    } else {
      assert got.tree.links[id] == [];
      NoRowsStable(got.tree.items, ServedList(item, el.layers));
    }
  }

  /** Finding or adding an item does not change whether what is inside is stable. */
  lemma GotInsideStable(f: Flags, s: State, el: Element, parent: Option<nat>)
    requires !f.forceParents && Sound(s.tree) && Placeable(s.tree, parent) && DistinctElement(ItemOf(el, parent), el)
    requires parent.Some? ==> s.tree.items[parent.value] !in ElementItems(ItemOf(el, parent), el)
    ensures InsideStable(s.tree, el.layers) <==> InsideStable(GetItem(f, s, el, parent).0.tree, el.layers)
  {
    var (got, id) := GetItem(f, s, el, parent);
    GetItemSound(f, s, el, parent);
    forall x | 0 <= x < |s.tree.items| && s.tree.items[x] in InsideItems(el.layers)
      ensures got.tree.links[x] == s.tree.links[x]
    {
      GetItemRows(f, s, el, parent, x);
    }
    assert |got.tree.items| <= |s.tree.items| + 1;
    StableSameInside(s.tree, got.tree, el.layers);
  }

  // One run.

  lemma OrderKeepsSettled(f: Flags, t: Tree, layers: seq<Element>, id: nat, server: seq<nat>)
    requires !f.forceParents && Sound(t) && Placeable(t, Some(id)) && t.items[id] !in InsideItems(layers)
    requires (forall k :: 0 <= k < |server| ==> server[k] < |t.items|) && forall item :: item in InsideItems(layers) ==> item in t.items
    ensures SettledInside(f, t, layers, id) <==> SettledInside(f, Order(f, t, id, server), layers, id)
  {
    var after := Order(f, t, id, server);
    OrderIndexed(f, t, id, server);
    forall x | 0 <= x < |t.items| && t.items[x] in InsideItems(layers) ensures after.links[x] == t.links[x] {
      OtherRows(f, t, id, server, x);
    }
    SettledSameInside(f, t, after, layers, id);
  }

  /** An element is settled after its run exactly when it was stable before. */
  lemma {:induction false} LayerSettlesIff(f: Flags, s: State, el: Element, parent: Option<nat>)
    requires f.forceOrdering && !f.forceParents && Sound(s.tree) && Placeable(s.tree, parent)
    requires DistinctElement(ItemOf(el, parent), el)
    requires parent.Some? ==> s.tree.items[parent.value] !in ElementItems(ItemOf(el, parent), el)
    ensures Settled(f, SyncLayer(f, s, el, parent).0.tree, el, parent) <==> ElementStable(s.tree, ItemOf(el, parent), el)
    decreases el, 1
  {
    var (got, id) := GetItem(f, s, el, parent);
    var item := ItemOf(el, parent);
    GetItemSound(f, s, el, parent);
    LayerSound(f, s, el, parent);
    var after := SyncLayer(f, s, el, parent).0.tree;
    IdInLonger(after.items, after.items, id);
    assert item in after.items;
    if el.layers != [] {
      var (inside, server) := SyncInside(f, got, el.layers, id);
      InsideSound(f, got, el.layers, id);
      InsideAddsItems(f, got, el.layers, id);
      ListSettlesIff(f, got, el.layers, id);
      GotStable(f, s, el, parent);
      GotInsideStable(f, s, el, parent);
      InsideSettlesIff(f, got, el.layers, id);
      OrderKeepsSettled(f, inside.tree, el.layers, id, server);
    }
  }

  lemma {:induction false} InsideSettlesIff(f: Flags, s: State, layers: seq<Element>, id: nat)
    requires f.forceOrdering && !f.forceParents && Sound(s.tree) && Placeable(s.tree, Some(id)) && DistinctInside(layers)
    requires s.tree.items[id] !in InsideItems(layers)
    ensures SettledInside(f, SyncInside(f, s, layers, id).0.tree, layers, id) <==> InsideStable(s.tree, layers)
    decreases layers, 0
  {
    if layers != [] {
      FirstSettlesIff(f, s, layers, id);
      LayerSettlesIff(f, s, layers[0], Some(id));
      InsideSettlesIff(f, SyncLayer(f, s, layers[0], Some(id)).0, layers[1..], id);
    }
  }

  lemma LaterRow(f: Flags, first: State, layers: seq<Element>, id: nat, x: nat)
    requires !f.forceParents && Sound(first.tree) && Placeable(first.tree, Some(id)) && layers != [] && DistinctInside(layers)
    requires first.tree.items[id] !in InsideItems(layers)
    requires first.tree.Has(x) && first.tree.items[x] in ElementItems(Inner(layers[0]), layers[0])
    ensures SyncInside(f, first, layers[1..], id).0.tree.links[x] == first.tree.links[x]
  {
    assert first.tree.items[x] in InsideItems(layers) && first.tree.items[x] !in InsideItems(layers[1..]);
    InsideRows(f, first, layers[1..], id, x);
    assert first.tree.links[x] + [] == first.tree.links[x];
  }

  /** The elements after the first one leave its rows alone. */
  lemma LaterRows(f: Flags, first: State, layers: seq<Element>, id: nat)
    requires !f.forceParents && Sound(first.tree) && Placeable(first.tree, Some(id)) && layers != [] && DistinctInside(layers)
    requires first.tree.items[id] !in InsideItems(layers)
    ensures var after := SyncInside(f, first, layers[1..], id).0.tree;
            Sound(after) && SameRows(first.tree, after, ElementItems(Inner(layers[0]), layers[0]))
  {
    InsideSound(f, first, layers[1..], id);
    var after, named := SyncInside(f, first, layers[1..], id).0.tree, ElementItems(Inner(layers[0]), layers[0]);
    forall x | 0 <= x < |first.tree.items| && first.tree.items[x] in named ensures after.links[x] == first.tree.links[x] {
      LaterRow(f, first, layers, id, x);
    }
  }

  lemma LaterKeepSettled(f: Flags, first: State, layers: seq<Element>, id: nat)
    requires !f.forceParents && Sound(first.tree) && Placeable(first.tree, Some(id)) && layers != [] && DistinctInside(layers)
    requires first.tree.items[id] !in InsideItems(layers)
    requires forall item :: item in ElementItems(Inner(layers[0]), layers[0]) ==> item in first.tree.items
    ensures var after := SyncInside(f, first, layers[1..], id).0.tree;
            Settled(f, first.tree, layers[0], Some(id)) <==> Settled(f, after, layers[0], Some(id))
  {
    LaterRows(f, first, layers, id);
    SettledSame(f, first.tree, SyncInside(f, first, layers[1..], id).0.tree, layers[0], Some(id));
  }

  lemma FirstKeepsStable(f: Flags, s: State, layers: seq<Element>, id: nat)
    requires !f.forceParents && Sound(s.tree) && Placeable(s.tree, Some(id)) && layers != [] && DistinctInside(layers)
    requires s.tree.items[id] !in InsideItems(layers)
    ensures var first := SyncLayer(f, s, layers[0], Some(id)).0.tree;
            && (InsideStable(s.tree, layers[1..]) <==> InsideStable(first, layers[1..]))
            && forall item :: item in ElementItems(Inner(layers[0]), layers[0]) ==> item in first.items
  {
    var first := SyncLayer(f, s, layers[0], Some(id)).0.tree;
    LayerSound(f, s, layers[0], Some(id));
    LayerAddsItems(f, s, layers[0], Some(id));
    forall x | 0 <= x < |s.tree.items| && s.tree.items[x] in InsideItems(layers[1..])
      ensures first.links[x] == s.tree.links[x]
    {
      LayerRows(f, s, layers[0], Some(id), x);
    }
    StableSameInside(s.tree, first, layers[1..]);
  }

  /** The first element and the rest do not disturb each other. */
  lemma FirstSettlesIff(f: Flags, s: State, layers: seq<Element>, id: nat)
    requires !f.forceParents && Sound(s.tree) && Placeable(s.tree, Some(id)) && layers != [] && DistinctInside(layers)
    requires s.tree.items[id] !in InsideItems(layers)
    ensures var first := SyncLayer(f, s, layers[0], Some(id)).0;
            var after := SyncInside(f, s, layers, id).0.tree;
            && Sound(first.tree) && Placeable(first.tree, Some(id)) && first.tree.items[id] == s.tree.items[id]
            && after == SyncInside(f, first, layers[1..], id).0.tree
            && (Settled(f, first.tree, layers[0], Some(id)) <==> Settled(f, after, layers[0], Some(id)))
            && (InsideStable(s.tree, layers[1..]) <==> InsideStable(first.tree, layers[1..]))
  {
    var first := SyncLayer(f, s, layers[0], Some(id)).0;
    LayerSound(f, s, layers[0], Some(id));
    FirstKeepsStable(f, s, layers, id);
    LaterKeepSettled(f, first, layers, id);
  }

  lemma {:induction false} AllRows(f: Flags, s: State, elements: seq<Element>, x: nat)
    requires !f.forceParents && Sound(s.tree) && DistinctAll(elements)
    requires s.tree.Has(x) && s.tree.items[x] !in AllItems(elements)
    ensures SyncAll(f, s, elements).tree.links[x] == s.tree.links[x]
    decreases |elements|
  {
    if elements != [] {
      LayerRows(f, s, elements[0], None, x);
      LayerSound(f, s, elements[0], None);
      AllRows(f, SyncLayer(f, s, elements[0], None).0, elements[1..], x);
    }
  }

  lemma {:induction false} AllStableSame(t: Tree, u: Tree, elements: seq<Element>)
    requires Indexed(t) && Indexed(u) && Distinctive(u.items)
    requires SameRows(t, u, AllItems(elements)) && NoneAdded(t.items, u.items, AllItems(elements))
    ensures AllStable(t, elements) <==> AllStable(u, elements)
  {
    if elements != [] {
      SameRowsFewer(t, u, AllItems(elements), ElementItems(ItemOf(elements[0], None), elements[0]));
      SameRowsFewer(t, u, AllItems(elements), AllItems(elements[1..]));
      StableSame(t, u, ItemOf(elements[0], None), elements[0]);
      AllStableSame(t, u, elements[1..]);
    }
  }

  /** With force_ordering alone, the document is settled after a run exactly when the database was stable before. */
  lemma {:induction false} AllSettledIff(f: Flags, s: State, elements: seq<Element>)
    requires f.forceOrdering && !f.forceParents && Sound(s.tree) && DistinctAll(elements)
    ensures AllSettled(f, SyncAll(f, s, elements).tree, elements) <==> AllStable(s.tree, elements)
    decreases |elements|
  {
    if elements != [] {
      LayerSettlesIff(f, s, elements[0], None);
      LayerSound(f, s, elements[0], None);
      LayerAddsItems(f, s, elements[0], None);
      var first := SyncLayer(f, s, elements[0], None).0;
      var after := SyncAll(f, first, elements[1..]).tree;
      AllSound(f, first, elements[1..]);
      AllSettledIff(f, first, elements[1..]);
      forall x | 0 <= x < |first.tree.items| && first.tree.items[x] in ElementItems(ItemOf(elements[0], None), elements[0])
        ensures after.links[x] == first.tree.links[x]
      {
        AllRows(f, first, elements[1..], x);
      }
      SettledSame(f, first.tree, after, elements[0], None);
      forall x | 0 <= x < |s.tree.items| && s.tree.items[x] in AllItems(elements[1..])
        ensures first.tree.links[x] == s.tree.links[x]
      {
        LayerRows(f, s, elements[0], None, x);
      }
      AllStableSame(s.tree, first.tree, elements[1..]);
    }
  }

  // A run that changes no rows finds the document settled.

  lemma FoundItem(f: Flags, s: State, el: Element, parent: Option<nat>)
    requires !f.forceParents && Sound(s.tree) && Placeable(s.tree, parent) && ItemOf(el, parent) in s.tree.items
    ensures var (got, id) := GetItem(f, s, el, parent);
            got.tree == s.tree && id == IdOf(s.tree.items, ItemOf(el, parent))
  {
    var item := ItemOf(el, parent);
    IdIn(s.tree.items, item);
    IdInLonger(s.tree.items, s.tree.items, IdOf(s.tree.items, item));
  }

  lemma SameRowsFirst(t: Tree, first: Tree, after: Tree, named: set<Item>, own: set<Item>)
    requires SameRows(t, after, named) && own <= named && SameRows(first, after, own) && t.items <= first.items
    ensures SameRows(t, first, own)
  {
  }

  /** The ordering step is about other rows. */
  lemma SameBeforeOrder(f: Flags, t: Tree, inside: Tree, id: nat, server: seq<nat>, named: set<Item>)
    requires Indexed(inside) && inside.Has(id) && (forall k :: 0 <= k < |server| ==> server[k] < |inside.items|)
    requires SameRows(t, Order(f, inside, id, server), named) && t.items <= inside.items && inside.items[id] !in named
    ensures SameRows(t, inside, named)
  {
    forall x | 0 <= x < |t.items| && t.items[x] in named ensures inside.links[x] == t.links[x] {
      OtherRows(f, inside, id, server, x);
    }
  }

  lemma {:induction false} SameLayerSettled(f: Flags, s: State, el: Element, parent: Option<nat>)
    requires f.forceOrdering && !f.forceParents && Sound(s.tree) && Placeable(s.tree, parent)
    requires DistinctElement(ItemOf(el, parent), el)
    requires forall item :: item in ElementItems(ItemOf(el, parent), el) ==> item in s.tree.items
    requires SameRows(s.tree, SyncLayer(f, s, el, parent).0.tree, ElementItems(ItemOf(el, parent), el))
    ensures Settled(f, s.tree, el, parent)
    decreases el, 1
  {
    var item := ItemOf(el, parent);
    assert item in ElementItems(item, el);
    FoundItem(f, s, el, parent);
    var (got, id) := GetItem(f, s, el, parent);
    if el.layers != [] {
      var (inside, server) := SyncInside(f, got, el.layers, id);
      InsideSound(f, got, el.layers, id);
      SameRowsFewer(s.tree, SyncLayer(f, s, el, parent).0.tree, ElementItems(item, el), InsideItems(el.layers));
      SameBeforeOrder(f, s.tree, inside.tree, id, server, InsideItems(el.layers));
      SameInsideSettled(f, got, el.layers, id);
      InsideUnchanged(f, got, el.layers, id);
      InsideServer(f, got, el.layers, id);
      if !Ordered(got.tree.Children(id), server) {
        OrderChanges(f, got.tree, id, server);
      }
    }
  }

  lemma {:induction false} SameInsideSettled(f: Flags, s: State, layers: seq<Element>, id: nat)
    requires f.forceOrdering && !f.forceParents && Sound(s.tree) && Placeable(s.tree, Some(id)) && DistinctInside(layers)
    requires s.tree.items[id] !in InsideItems(layers) && forall item :: item in InsideItems(layers) ==> item in s.tree.items
    requires SameRows(s.tree, SyncInside(f, s, layers, id).0.tree, InsideItems(layers))
    ensures SettledInside(f, s.tree, layers, id)
    decreases layers, 0
  {
    if layers != [] {
      LayerSound(f, s, layers[0], Some(id));
      var first := SyncLayer(f, s, layers[0], Some(id)).0;
      LaterRows(f, first, layers, id);
      SameRowsFirst(s.tree, first.tree, SyncInside(f, s, layers, id).0.tree, InsideItems(layers),
                    ElementItems(Inner(layers[0]), layers[0]));
      SameLayerSettled(f, s, layers[0], Some(id));
      SettledUnchanged(f, s, layers[0], Some(id));
      SameRowsFewer(s.tree, SyncInside(f, s, layers, id).0.tree, InsideItems(layers), InsideItems(layers[1..]));
      SameInsideSettled(f, first, layers[1..], id);
    }
  }

  lemma {:induction false} SameAllSettled(f: Flags, s: State, elements: seq<Element>)
    requires f.forceOrdering && !f.forceParents && Sound(s.tree) && DistinctAll(elements)
    requires forall item :: item in AllItems(elements) ==> item in s.tree.items
    requires SyncAll(f, s, elements).tree == s.tree
    ensures AllSettled(f, s.tree, elements)
    decreases |elements|
  {
    if elements != [] {
      LayerSound(f, s, elements[0], None);
      var first := SyncLayer(f, s, elements[0], None).0;
      forall x | 0 <= x < |s.tree.items| && s.tree.items[x] in ElementItems(ItemOf(elements[0], None), elements[0])
        ensures first.tree.links[x] == s.tree.links[x]
      {
        AllRows(f, first, elements[1..], x);
      }
      SameLayerSettled(f, s, elements[0], None);
      SettledUnchanged(f, s, elements[0], None);
      SameAllSettled(f, first, elements[1..]);
    }
  }

  lemma {:induction false} AllAdd(f: Flags, s: State, elements: seq<Element>)
    requires Sound(s.tree)
    ensures forall item :: item in AllItems(elements) ==> item in SyncAll(f, s, elements).tree.items
    decreases |elements|
  {
    if elements != [] {
      LayerSound(f, s, elements[0], None);
      LayerAddsItems(f, s, elements[0], None);
      var first := SyncLayer(f, s, elements[0], None).0;
      AllAdd(f, first, elements[1..]);
      assert forall item :: item in first.tree.items ==> item in SyncAll(f, first, elements[1..]).tree.items;
    }
  }

  /** With force_ordering alone, and no two elements of the document with the same name and kind, a second run changes
    * nothing exactly when the database was stable. */
  lemma OrderingRunIff(f: Flags, t: Tree, elements: seq<Element>)
    requires f.forceOrdering && !f.forceParents && Sound(t) && DistinctAll(elements)
    ensures var once := Synchronize(f, t, elements).tree;
            Synchronize(f, once, elements).tree == once <==> AllStable(t, elements)
  {
    var before := State(t, 0, 0, 0, 0);
    var once := State(Synchronize(f, t, elements).tree, 0, 0, 0, 0);
    AllSound(f, before, elements);
    AllSettledIff(f, before, elements);
    if AllStable(t, elements) {
      AllUnchanged(f, once, elements);
    }
    if Synchronize(f, once.tree, elements).tree == once.tree {
      AllAdd(f, before, elements);
      SameAllSettled(f, once, elements);
    }
  }

  /** When no two elements of the document have the same name and kind, a second run changes something exactly when
    * force_ordering is on alone and the database was not stable. With both flags this needs that no child that the server
    * does not give is linked twice under an item of the document. */
  lemma SecondRunIff(f: Flags, t: Tree, elements: seq<Element>)
    requires Sound(t) && DistinctAll(elements)
    requires f.forceOrdering && f.forceParents ==> OthersOnce(t, DocumentOf(elements))
    ensures var once := Synchronize(f, t, elements).tree;
            Synchronize(f, once, elements).tree != once
            <==> f.forceOrdering && !f.forceParents && !AllStable(t, elements)
  {
    if f.forceOrdering && !f.forceParents {
      OrderingRunIff(f, t, elements);
    } else {
      SecondRunTwice(f, t, elements);
    }
  }
}
