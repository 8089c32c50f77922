/** A second synchronization with the same document changes nothing. */
module SyncFixpoint {
  import opened Wrappers
  import opened TreeGraph
  import opened ChildrenLists
  import opened SyncTree
  import opened SyncCounts
  import opened SyncShape
  import opened SyncAcyclic
  import opened SyncOrdering
  import opened SyncDocuments
  import opened SyncFrame

  /** The children that the server gives to an item. */
  function ServerOf(items: seq<Item>, item: Item, layers: seq<Element>): seq<nat> {
    if layers == [] then []
    else
      (if item.kind == Theme && layers[0].layers == [] then [] else [IdOf(items, Inner(layers[0]))])
      + ServerOf(items, item, layers[1..])
  }

  /** Nothing is left to do for an element and what is inside. */
  ghost predicate Settled(f: Flags, t: Tree, el: Element, parent: Option<nat>)
    requires t.Lists()
    decreases el, 1
  {
    var item := ItemOf(el, parent);
    var id := IdOf(t.items, item);
    && item in t.items && id < |t.items| && Placeable(t, parent)
    && (f.forceParents && item.kind != Theme ==> t.parents[id] == Under(t, el, parent))
    && (f.forceOrdering && el.layers != [] ==> Ordered(t.Children(id), ServerOf(t.items, item, el.layers)))
    && SettledInside(f, t, el.layers, id)
  }

  ghost predicate SettledInside(f: Flags, t: Tree, layers: seq<Element>, id: nat)
    requires t.Lists()
    decreases layers, 0
  {
    layers == [] || (Settled(f, t, layers[0], Some(id)) && SettledInside(f, t, layers[1..], id))
  }

  ghost predicate AllSettled(f: Flags, t: Tree, elements: seq<Element>)
    requires t.Lists()
  {
    elements == [] || (Settled(f, t, elements[0], None) && AllSettled(f, t, elements[1..]))
  }

  // A settled tree is not changed.

  lemma SettledItem(f: Flags, s: State, el: Element, parent: Option<nat>)
    requires Indexed(s.tree) && Settled(f, s.tree, el, parent)
    ensures GetItem(f, s, el, parent) == (s.(found := s.found + 1), IdOf(s.tree.items, ItemOf(el, parent)))
  {
  }

  lemma {:induction false} SettledUnchanged(f: Flags, s: State, el: Element, parent: Option<nat>)
    requires Indexed(s.tree) && Settled(f, s.tree, el, parent)
    ensures SyncLayer(f, s, el, parent) == (s.(found := s.found + CountElements(el)), IdOf(s.tree.items, ItemOf(el, parent)))
    decreases el, 1
  {
    var (got, id) := GetItem(f, s, el, parent);
    SettledItem(f, s, el, parent);
    InsideUnchanged(f, got, el.layers, id);
  }

  lemma {:induction false} InsideUnchanged(f: Flags, s: State, layers: seq<Element>, id: nat)
    requires Indexed(s.tree) && s.tree.Has(id) && SettledInside(f, s.tree, layers, id)
    ensures SyncInside(f, s, layers, id)
         == (s.(found := s.found + CountAll(layers)), ServerOf(s.tree.items, s.tree.items[id], layers))
    decreases layers, 0
  {
    if layers != [] {
      SettledUnchanged(f, s, layers[0], Some(id));
      InsideUnchanged(f, SyncLayer(f, s, layers[0], Some(id)).0, layers[1..], id);
    }
  }

  lemma {:induction false} AllUnchanged(f: Flags, s: State, elements: seq<Element>)
    requires Indexed(s.tree) && AllSettled(f, s.tree, elements)
    ensures SyncAll(f, s, elements) == s.(found := s.found + CountAll(elements))
    decreases |elements|
  {
    if elements != [] {
      SettledUnchanged(f, s, elements[0], None);
      AllUnchanged(f, SyncLayer(f, s, elements[0], None).0, elements[1..]);
    }
  }

  // The state after the elements of a document.

  /** The items that a list of ids names. */
  ghost predicate Among(items: seq<Item>, ids: seq<nat>, named: set<Item>) {
    forall k :: 0 <= k < |ids| ==> ids[k] < |items| && items[ids[k]] in named
  }

  lemma ServerFirst(items: seq<Item>, item: Item, layers: seq<Element>, child: nat, server: seq<nat>)
    requires layers != [] && DistinctInside(layers) && Distinctive(items)
    requires child < |items| && items[child] == Inner(layers[0])
    requires server == ServerOf(items, item, layers[1..]) && Distinct(server)
    requires Among(items, server, InsideItems(layers[1..]))
    ensures var all := ServerOf(items, item, layers);
            && all == (if item.kind == Theme && layers[0].layers == [] then [] else [child]) + server
            && Distinct(all) && Among(items, all, InsideItems(layers))
  {
    IdInLonger(items, items, child);
    assert child !in server by {
      assert forall k :: 0 <= k < |server| ==> items[server[k]] in InsideItems(layers[1..]);
    }
    DistinctAppend([child], server);
  }

  /** Whatever the flags, the children that the server gives are the items of its elements, without layers of a theme. */
  lemma {:induction false} InsideServer(f: Flags, s: State, layers: seq<Element>, id: nat)
    requires Sound(s.tree) && s.tree.Has(id) && (layers == [] || Placeable(s.tree, Some(id))) && DistinctInside(layers)
    ensures var (after, server) := SyncInside(f, s, layers, id);
            && Sound(after.tree) && server == ServerOf(after.tree.items, s.tree.items[id], layers)
            && Distinct(server) && Among(after.tree.items, server, InsideItems(layers))
    decreases |layers|
  {
    InsideSound(f, s, layers, id);
    if layers != [] {
      LayerSound(f, s, layers[0], Some(id));
      var (first, child) := SyncLayer(f, s, layers[0], Some(id));
      InsideServer(f, first, layers[1..], id);
      var (after, server) := SyncInside(f, first, layers[1..], id);
      ServerFirst(after.tree.items, s.tree.items[id], layers, child, server);
    }
  }

  /** The ids of the children that the server gives are those of their items. */
  lemma {:induction false} ServedIds(items: seq<Item>, item: Item, layers: seq<Element>, c: nat)
    requires Distinctive(items) && c < |items| && items[c] in Served(item, layers)
    ensures c in ServerOf(items, item, layers)
  {
    if items[c] in Served(item, layers[1..]) {
      ServedIds(items, item, layers[1..], c);
    } else {
      IdInLonger(items, items, c);
    }
  }

  /** With force_parents the items are under this parent only. */
  predicate OnlyUnder(f: Flags, t: Tree, ids: seq<nat>, parent: nat)
    requires t.Lists()
  {
    f.forceParents ==> forall k :: 0 <= k < |ids| ==> ids[k] < |t.items| && t.parents[ids[k]] == [parent]
  }

  /** The ordering step finds no child twice, and leaves none. */
  lemma OrderClean(f: Flags, t: Tree, el: Element, id: nat, server: seq<nat>, d: Document)
    requires Clean(f, t, d) && t.Has(id) && Fits(d, t.items[id], el)
    requires server == ServerOf(t.items, t.items[id], el.layers) && Distinct(server)
    requires Among(t.items, server, InsideItems(el.layers)) && MayBeUnder(t, id, server) && OnlyUnder(f, t, server, id)
    ensures ToOrder(f, t, id) ==> Distinct(t.Children(id))
    ensures Clean(f, Order(f, t, id, server), d)
  {
    assert forall k :: 0 <= k < |server| ==> server[k] < |t.items| by {
      assert forall k :: 0 <= k < |server| ==> t.items[server[k]] in InsideItems(el.layers);
    }
    OrderSound(f, t, id, server);
    if ToOrder(f, t, id) {
      forall c | 0 <= c < |t.items| && (t.items[id], t.items[c]) in d.links ensures c in server {
        ServedIds(t.items, t.items[id], el.layers, c);
      }
      DistinctToOrder(f, t, id, server, d);
      OrderResult(f, t, id, server);
      OrderOnce(f, t, id, server, d);
    }
  }

  lemma OrderOnce(f: Flags, t: Tree, id: nat, server: seq<nat>, d: Document)
    requires ToOrder(f, t, id) && Indexed(t) && Once(f, t, d) && Distinct(t.Children(id)) && t.Has(id)
    requires Distinct(server) && forall k :: 0 <= k < |server| ==> server[k] < |t.items|
    ensures Order(f, t, id, server).Lists() && Once(f, Order(f, t, id, server), d)
  {
    OrderResult(f, t, id, server);
    var after := Order(f, t, id, server);
    forall p, c | 0 <= p < |after.items| && 0 <= c < |after.items| ensures OnceUnder(f, after, d, p, c) {
      assert OnceUnder(f, t, d, p, c);
      if p == id {
        CountOfDistinct(after.links[p], c);
      } else {
        OrderLeaves(f, t, id, server, p);
      }
    }
  }

  /** The item of an element is under the parent only. */
  lemma {:induction false} LayerClean(f: Flags, s: State, el: Element, parent: Option<nat>, d: Document)
    requires Clean(f, s.tree, d) && Placeable(s.tree, parent)
    requires DistinctElement(ItemOf(el, parent), el) && Fits(d, ItemOf(el, parent), el)
    ensures var (after, id) := SyncLayer(f, s, el, parent);
            && Clean(f, after.tree, d)
            && (f.forceParents && ItemOf(el, parent).kind != Theme ==> after.tree.parents[id] == Under(s.tree, el, parent))
    decreases el, 1
  {
    GetItemClean(f, s, el, parent, d);
    var (got, id) := GetItem(f, s, el, parent);
    InsideClean(f, got, el.layers, id, d);
    InsideServer(f, got, el.layers, id);
    InsideSound(f, got, el.layers, id);
    var (inside, server) := SyncInside(f, got, el.layers, id);
    OrderClean(f, inside.tree, el, id, server, d);
    InsideLeaves(f, got, el.layers, id, id, d);
    OrderAlone(f, inside.tree, el, id, server, id, d);
    GetItemSettles(f, s, el, parent);
  }

  lemma NotServedItself(t: Tree, id: nat, server: seq<nat>, el: Element)
    requires t.Has(id) && t.items[id] !in InsideItems(el.layers) && Among(t.items, server, InsideItems(el.layers))
    ensures id !in server
  {
    assert forall k :: 0 <= k < |server| ==> t.items[server[k]] in InsideItems(el.layers);
  }

  lemma {:induction false} InsideClean(f: Flags, s: State, layers: seq<Element>, id: nat, d: Document)
    requires Clean(f, s.tree, d) && s.tree.Has(id) && (layers == [] || Placeable(s.tree, Some(id)))
    requires DistinctInside(layers) && FitsInside(d, layers)
    ensures var (after, server) := SyncInside(f, s, layers, id); Clean(f, after.tree, d) && OnlyUnder(f, after.tree, server, id)
    decreases layers, 0
  {
    if layers != [] {
      LayerClean(f, s, layers[0], Some(id), d);
      var (first, child) := SyncLayer(f, s, layers[0], Some(id));
      InsideClean(f, first, layers[1..], id, d);
      var (after, server) := SyncInside(f, first, layers[1..], id);
      assert after.tree.parents[child] == first.tree.parents[child] by {
        InsideLeaves(f, first, layers[1..], id, child, d);
      }
      OneMoreUnder(f, s.tree, after.tree, layers[0], id, child, server);
    }
  }

  /** With the item of the first element, if the server gives it. */
  lemma OneMoreUnder(f: Flags, t: Tree, after: Tree, el: Element, id: nat, child: nat, server: seq<nat>)
    requires Placeable(t, Some(id)) && after.Lists() && after.Has(child) && OnlyUnder(f, after, server, id)
    requires f.forceParents ==> after.parents[child] == Under(t, el, Some(id))
    ensures OnlyUnder(f, after, (if t.items[id].kind == Theme && el.layers == [] then [] else [child]) + server, id)
  {
  }

  /** The ordering step leaves alone the items that are not inside the element. */
  lemma OrderAlone(f: Flags, t: Tree, el: Element, id: nat, server: seq<nat>, x: nat, d: Document)
    requires Clean(f, t, d) && t.Has(id) && Fits(d, t.items[id], el)
    requires server == ServerOf(t.items, t.items[id], el.layers) && Distinct(server)
    requires Among(t.items, server, InsideItems(el.layers)) && MayBeUnder(t, id, server) && OnlyUnder(f, t, server, id)
    requires t.Has(x) && t.items[x] !in InsideItems(el.layers)
    ensures var after := Order(f, t, id, server);
            && Indexed(after) && after.items == t.items && after.parents[x] == t.parents[x]
            && (x != id ==> after.links[x] == t.links[x])
  {
    NotServedItself(t, x, server, el);
    OrderClean(f, t, el, id, server, d);
    OrderLeaves(f, t, id, server, x);
  }

  /** Synchronizing an element leaves alone the items that do not belong to it. */
  lemma {:induction false} LayerLeaves(f: Flags, s: State, el: Element, parent: Option<nat>, x: nat, d: Document)
    requires Clean(f, s.tree, d) && Placeable(s.tree, parent)
    requires DistinctElement(ItemOf(el, parent), el) && Fits(d, ItemOf(el, parent), el)
    requires s.tree.Has(x) && s.tree.items[x] !in ElementItems(ItemOf(el, parent), el)
    ensures var after := SyncLayer(f, s, el, parent).0.tree;
            && after.parents[x] == s.tree.parents[x]
            && (parent != Some(x) ==> Undisturbed(s.tree, after, x, ElementItems(ItemOf(el, parent), el)))
    decreases el, 1
  {
    GetItemLeaves(f, s, el, parent, x);
    GetItemClean(f, s, el, parent, d);
    var (got, id) := GetItem(f, s, el, parent);
    InsideClean(f, got, el.layers, id, d);
    InsideServer(f, got, el.layers, id);
    InsideSound(f, got, el.layers, id);
    InsideLeaves(f, got, el.layers, id, x, d);
    var (inside, server) := SyncInside(f, got, el.layers, id);
    var after := SyncLayer(f, s, el, parent).0.tree;
    OrderAlone(f, inside.tree, el, id, server, x, d);
    if parent != Some(x) {
      UndisturbedThrice(s.tree, got.tree, inside.tree, after, x, ItemOf(el, parent), InsideItems(el.layers));
    }
  }

  lemma UndisturbedThrice(t: Tree, got: Tree, inside: Tree, after: Tree, x: nat, item: Item, inner: set<Item>)
    requires Indexed(t) && Indexed(got) && Indexed(inside) && Indexed(after) && t.Has(x)
    requires t.items <= got.items <= inside.items <= after.items && after.links[x] == inside.links[x]
    requires Undisturbed(t, got, x, {item}) && Undisturbed(got, inside, x, inner)
    ensures Undisturbed(t, after, x, {item} + inner)
  {
    UndisturbedTwice(t, got, inside, x, {item}, inner);
  }

  lemma {:induction false} InsideLeaves(f: Flags, s: State, layers: seq<Element>, id: nat, x: nat, d: Document)
    requires Clean(f, s.tree, d) && s.tree.Has(id) && (layers == [] || Placeable(s.tree, Some(id)))
    requires DistinctInside(layers) && FitsInside(d, layers)
    requires s.tree.Has(x) && s.tree.items[x] !in InsideItems(layers)
    ensures var after := SyncInside(f, s, layers, id).0.tree;
            && after.parents[x] == s.tree.parents[x]
            && (x != id ==> Undisturbed(s.tree, after, x, InsideItems(layers)))
    decreases layers, 0
  {
    if layers == [] {
      SameUndisturbed(s.tree, s.tree, x);
    } else {
      LayerLeaves(f, s, layers[0], Some(id), x, d);
      LayerClean(f, s, layers[0], Some(id), d);
      var first := SyncLayer(f, s, layers[0], Some(id)).0;
      InsideLeaves(f, first, layers[1..], id, x, d);
      if x != id {
        UndisturbedTwice(s.tree, first.tree, SyncInside(f, s, layers, id).0.tree, x,
                         ElementItems(Inner(layers[0]), layers[0]), InsideItems(layers[1..]));
      }
    }
  }

  // What was done stays done.

  /** A tree that differs only in what the elements of `kept` do not need. */
  ghost predicate Leaves(f: Flags, t: Tree, after: Tree, kept: set<Item>, moved: set<Item>) {
    && Sound(t) && Sound(after) && t.items <= after.items && kept !! moved
    && forall x :: 0 <= x < |t.items| && t.items[x] in kept ==> LeavesItem(f, t, after, x, moved)
  }

  ghost predicate LeavesItem(f: Flags, t: Tree, after: Tree, x: nat, moved: set<Item>)
    requires Indexed(t) && Indexed(after) && t.items <= after.items && t.Has(x)
  {
    (f.forceParents ==> after.parents[x] == t.parents[x]) && Undisturbed(t, after, x, moved)
  }

  lemma IdIn(items: seq<Item>, item: Item)
    requires item in items
    ensures IdOf(items, item) < |items| && items[IdOf(items, item)] == item
  {
  }

  lemma {:induction false} ServerIn(f: Flags, t: Tree, after: Tree, item: Item, layers: seq<Element>, id: nat)
    requires Sound(t) && Sound(after) && t.items <= after.items && t.Has(id) && SettledInside(f, t, layers, id)
    ensures Among(t.items, ServerOf(t.items, item, layers), InsideItems(layers))
    ensures ServerOf(after.items, item, layers) == ServerOf(t.items, item, layers)
    decreases |layers|
  {
    if layers != [] {
      ServerIn(f, t, after, item, layers[1..], id);
      IdIn(t.items, Inner(layers[0]));
      IdInLonger(t.items, after.items, IdOf(t.items, Inner(layers[0])));
    }
  }

  /** The order of the children of an item stays. */
  lemma StillOrdered(t: Tree, after: Tree, id: nat, server: seq<nat>, kept: set<Item>, moved: set<Item>)
    requires Indexed(t) && Indexed(after) && t.items <= after.items && t.Has(id)
    requires Undisturbed(t, after, id, moved) && kept !! moved
    requires Among(t.items, server, kept) && Ordered(t.Children(id), server)
    ensures Ordered(after.Children(id), server)
  {
    forall c | c in server ensures c in after.Children(id) {
      var k :| 0 <= k < |server| && server[k] == c;
      assert c in t.Children(id);
      assert t.items[server[k]] in kept;
    }
    OrderedFewer(t.Children(id), after.Children(id), server);
  }

  lemma {:induction false} StillSettled(f: Flags, t: Tree, after: Tree, el: Element, parent: Option<nat>,
                                        kept: set<Item>, moved: set<Item>)
    requires Leaves(f, t, after, kept, moved) && Settled(f, t, el, parent)
    requires ElementItems(ItemOf(el, parent), el) <= kept
    ensures Settled(f, after, el, parent)
    decreases el, 1
  {
    var item := ItemOf(el, parent);
    IdIn(t.items, item);
    var id := IdOf(t.items, item);
    IdInLonger(t.items, after.items, id);
    assert LeavesItem(f, t, after, id, moved);
    ServerIn(f, t, after, item, el.layers, id);
    if f.forceOrdering && el.layers != [] {
      StillOrdered(t, after, id, ServerOf(t.items, item, el.layers), kept, moved);
    }
    StillSettledInside(f, t, after, el.layers, id, kept, moved);
    assert after.items[id] == item;
    assert item in after.items;
  }

  lemma {:induction false} StillSettledInside(f: Flags, t: Tree, after: Tree, layers: seq<Element>, id: nat,
                                              kept: set<Item>, moved: set<Item>)
    requires Leaves(f, t, after, kept, moved) && SettledInside(f, t, layers, id) && InsideItems(layers) <= kept
    ensures SettledInside(f, after, layers, id)
    decreases layers, 0
  {
    if layers != [] {
      StillSettled(f, t, after, layers[0], Some(id), kept, moved);
      StillSettledInside(f, t, after, layers[1..], id, kept, moved);
    }
  }

  // One run settles everything.

  lemma SettledServerLinked(f: Flags, t: Tree, layers: seq<Element>, id: nat, x: nat)
    requires f.forceParents && Sound(t) && Placeable(t, Some(id)) && SettledInside(f, t, layers, id)
    requires x in ServerOf(t.items, t.items[id], layers)
    ensures x in t.Children(id)
    decreases |layers|
  {
  }

  lemma OrderLeavesInside(f: Flags, t: Tree, layers: seq<Element>, id: nat, server: seq<nat>, x: nat)
    requires Sound(t) && Placeable(t, Some(id)) && SettledInside(f, t, layers, id)
    requires f.forceOrdering ==> Distinct(t.Children(id))
    requires server == ServerOf(t.items, t.items[id], layers)
    requires forall k :: 0 <= k < |server| ==> server[k] < |t.items|
    requires t.Has(x) && t.items[x] in InsideItems(layers) && t.items[id] !in InsideItems(layers)
    ensures var after := Order(f, t, id, server);
            Indexed(after) && after.items == t.items && LeavesItem(f, t, after, x, {})
  {
    var after := Order(f, t, id, server);
    OrderLeaves(f, t, id, server, x);
    SameUndisturbed(t, after, x);
    if f.forceParents && x in server {
      SettledServerLinked(f, t, layers, id, x);
    }
  }

  /** The ordering step of an item settles the order of its children and leaves what is inside settled. */
  lemma OrderSettles(f: Flags, t: Tree, layers: seq<Element>, id: nat, server: seq<nat>)
    requires Sound(t) && Placeable(t, Some(id)) && SettledInside(f, t, layers, id)
    requires f.forceOrdering ==> Distinct(t.Children(id))
    requires server == ServerOf(t.items, t.items[id], layers)
    requires Distinct(server) && t.items[id] !in InsideItems(layers) && MayBeUnder(t, id, server)
    requires forall k :: 0 <= k < |server| ==> server[k] < |t.items|
    ensures var after := Order(f, t, id, server);
            && SettledInside(f, after, layers, id)
            && (f.forceOrdering ==> Ordered(after.Children(id), server))
  {
    OrderSound(f, t, id, server);
    var after := Order(f, t, id, server);
    OrderIndexed(f, t, id, server);
    if f.forceOrdering {
      OrderResult(f, t, id, server);
    }
    forall x | 0 <= x < |t.items| && t.items[x] in InsideItems(layers) ensures LeavesItem(f, t, after, x, {}) {
      OrderLeavesInside(f, t, layers, id, server, x);
    }
    StillSettledInside(f, t, after, layers, id, InsideItems(layers), {});
  }

  lemma GetItemSettles(f: Flags, s: State, el: Element, parent: Option<nat>)
    requires Sound(s.tree) && Placeable(s.tree, parent)
    ensures var (got, id) := GetItem(f, s, el, parent);
            f.forceParents && ItemOf(el, parent).kind != Theme ==> got.tree.parents[id] == Under(s.tree, el, parent)
  {
  }

  lemma SettledFrom(f: Flags, t: Tree, after: Tree, el: Element, parent: Option<nat>, id: nat)
    requires Sound(after) && Placeable(t, parent) && t.items <= after.items
    requires id < |after.items| && after.items[id] == ItemOf(el, parent)
    requires f.forceParents && ItemOf(el, parent).kind != Theme ==> after.parents[id] == Under(t, el, parent)
    requires f.forceOrdering && el.layers != [] ==>
               Ordered(after.Children(id), ServerOf(after.items, ItemOf(el, parent), el.layers))
    requires SettledInside(f, after, el.layers, id)
    ensures Settled(f, after, el, parent)
  {
  }

  lemma {:induction false} LayerSettles(f: Flags, s: State, el: Element, parent: Option<nat>, d: Document)
    requires Clean(f, s.tree, d) && Placeable(s.tree, parent)
    requires DistinctElement(ItemOf(el, parent), el) && Fits(d, ItemOf(el, parent), el)
    ensures Clean(f, SyncLayer(f, s, el, parent).0.tree, d) && Settled(f, SyncLayer(f, s, el, parent).0.tree, el, parent)
    decreases el, 1
  {
    GetItemClean(f, s, el, parent, d);
    LayerClean(f, s, el, parent, d);
    var (got, id) := GetItem(f, s, el, parent);
    InsideClean(f, got, el.layers, id, d);
    InsideServer(f, got, el.layers, id);
    InsideSound(f, got, el.layers, id);
    var (inside, server) := SyncInside(f, got, el.layers, id);
    var after := SyncLayer(f, s, el, parent).0.tree;
    if el.layers != [] {
      InsideSettles(f, got, el.layers, id, d);
      OrderClean(f, inside.tree, el, id, server, d);
      OrderSettles(f, inside.tree, el.layers, id, server);
      ServerIn(f, inside.tree, after, ItemOf(el, parent), el.layers, id);
    }
    SettledFrom(f, s.tree, after, el, parent, id);
  }

  lemma {:induction false} InsideSettles(f: Flags, s: State, layers: seq<Element>, id: nat, d: Document)
    requires Clean(f, s.tree, d) && Placeable(s.tree, Some(id)) && DistinctInside(layers) && FitsInside(d, layers)
    requires s.tree.items[id] !in InsideItems(layers)
    ensures SettledInside(f, SyncInside(f, s, layers, id).0.tree, layers, id)
    decreases layers, 0
  {
    if layers != [] {
      LayerSettles(f, s, layers[0], Some(id), d);
      var first := SyncLayer(f, s, layers[0], Some(id)).0;
      InsideSettles(f, first, layers[1..], id, d);
      InsideClean(f, first, layers[1..], id, d);
      var after := SyncInside(f, first, layers[1..], id).0.tree;
      var kept := ElementItems(Inner(layers[0]), layers[0]);
      forall x | 0 <= x < |first.tree.items| && first.tree.items[x] in kept
        ensures LeavesItem(f, first.tree, after, x, InsideItems(layers[1..]))
      {
        InsideLeaves(f, first, layers[1..], id, x, d);
      }
      StillSettled(f, first.tree, after, layers[0], Some(id), kept, InsideItems(layers[1..]));
    }
  }

  lemma {:induction false} AllLeave(f: Flags, s: State, elements: seq<Element>, x: nat, d: Document)
    requires Clean(f, s.tree, d) && DistinctAll(elements) && FitAll(d, elements)
    requires s.tree.Has(x) && s.tree.items[x] !in AllItems(elements)
    ensures var after := SyncAll(f, s, elements).tree;
            Clean(f, after, d) && after.parents[x] == s.tree.parents[x] && Undisturbed(s.tree, after, x, AllItems(elements))
    decreases |elements|
  {
    if elements == [] {
      SameUndisturbed(s.tree, s.tree, x);
    } else {
      LayerLeaves(f, s, elements[0], None, x, d);
      LayerClean(f, s, elements[0], None, d);
      var first := SyncLayer(f, s, elements[0], None).0;
      AllLeave(f, first, elements[1..], x, d);
      UndisturbedTwice(s.tree, first.tree, SyncAll(f, s, elements).tree, x,
                       ElementItems(ItemOf(elements[0], None), elements[0]), AllItems(elements[1..]));
    }
  }

  lemma {:induction false} AllSettle(f: Flags, s: State, elements: seq<Element>, d: Document)
    requires Clean(f, s.tree, d) && DistinctAll(elements) && FitAll(d, elements)
    ensures Clean(f, SyncAll(f, s, elements).tree, d) && AllSettled(f, SyncAll(f, s, elements).tree, elements)
    decreases |elements|
  {
    if elements != [] {
      LayerSettles(f, s, elements[0], None, d);
      var first := SyncLayer(f, s, elements[0], None).0;
      AllSettle(f, first, elements[1..], d);
      var after := SyncAll(f, first, elements[1..]).tree;
      var kept := ElementItems(ItemOf(elements[0], None), elements[0]);
      forall x | 0 <= x < |first.tree.items| && first.tree.items[x] in kept
        ensures LeavesItem(f, first.tree, after, x, AllItems(elements[1..]))
      {
        AllLeave(f, first, elements[1..], x, d);
      }
      StillSettled(f, first.tree, after, elements[0], None, kept, AllItems(elements[1..]));
    }
  }

  /** When no two elements of the document have the same name and kind, a second run finds all items and changes nothing: no
    * item, no list of children with its orderings, no list of parents. This holds for all databases without force_ordering;
    * with it, when no child is linked twice under an item of the document, apart from the links that force_parents makes. */
  lemma SecondRunChangesNothing(f: Flags, t: Tree, elements: seq<Element>)
    requires Sound(t) && DistinctAll(elements)
    requires f.forceOrdering ==> Once(f, t, DocumentOf(elements))
    ensures var once := Synchronize(f, t, elements).tree;
            Synchronize(f, once, elements) == State(once, CountAll(elements), 0, 0, 0)
  {
    DocumentFits(elements);
    AllSettle(f, State(t, 0, 0, 0, 0), elements, DocumentOf(elements));
    AllUnchanged(f, State(Synchronize(f, t, elements).tree, 0, 0, 0, 0), elements);
  }
}
