/** When the synchronization keeps the layer tree without cycles, for each choice of the two force flags. */
module SyncAcyclic {
  import opened Wrappers
  import opened TreeGraph
  import opened ChildrenLists
  import opened SyncTree
  import opened SyncCounts
  import opened SyncShape

  /** The items of a database: links as allowed, each in both lists, and no item twice. */
  ghost predicate Sound(t: Tree) {
    Indexed(t) && Shaped(t) && UniqueItems(t) && SameCounts(t)
  }

  /** An element is below a theme or a group, or at the top. */
  predicate Placeable(t: Tree, parent: Option<nat>) {
    parent.Some? ==> t.IsA(parent.value, Theme) || t.IsA(parent.value, Group)
  }

  /** The parents that a new item gets, and a moved one. */
  function Under(t: Tree, el: Element, parent: Option<nat>): (under: seq<nat>)
    requires Placeable(t, parent)
    ensures MayHold(t, under, ItemOf(el, parent))
  {
    if el.layers == [] then LayerParents(t, parent) else if parent.None? then [] else [parent.value]
  }

  lemma FindUnique(items: seq<Item>, item: Item, id: nat)
    requires id < |items| && items[id] == item
    requires forall i, j :: 0 <= i < j < |items| ==> items[i] != items[j]
    ensures Find(items, item) == Some(id)
  {
  }

  /** Without force_parents, an element adds its item when it is not there and changes nothing else. */
  lemma GetItemKept(f: Flags, s: State, el: Element, parent: Option<nat>)
    requires !f.forceParents && Sound(s.tree) && Placeable(s.tree, parent)
    ensures var (got, id) := GetItem(f, s, el, parent);
            && Sound(got.tree) && Placeable(got.tree, parent)
            && (ItemOf(el, parent) in s.tree.items ==> got.tree == s.tree)
            && (ItemOf(el, parent) !in s.tree.items ==>
                  id == |s.tree.items| && got.tree.Edges() == s.tree.Edges() + Above(Under(s.tree, el, parent), id))
  {
    var item, under := ItemOf(el, parent), Under(s.tree, el, parent);
    if Find(s.tree.items, item).None? {
      AddItemShaped(s.tree, item, under);
      AddItemCounts(s.tree, item, under);
    }
  }

  lemma SameParents(t: Tree, id: nat, under: seq<nat>)
    requires t.Lists() && t.Has(id) && t.parents[id] == under
    ensures t.Edges() == EdgesNotTo(t.Edges(), id) + Above(under, id)
  {
  }

  lemma NoLinksToNew(t: Tree, under: seq<nat>)
    requires Indexed(t)
    ensures t.Edges() + Above(under, |t.items|) == EdgesNotTo(t.Edges(), |t.items|) + Above(under, |t.items|)
  {
  }

  lemma ThemeHasNoParents(t: Tree, id: nat)
    requires Indexed(t) && WellKinded(t) && t.IsA(id, Theme)
    ensures t.parents[id] == []
  {
    assert t.parents[id] != [] ==> Linkable(t, t.parents[id][0], id);
  }

  /** With force_parents, the item of an element ends up under these parents only. */
  lemma GetItemForced(f: Flags, s: State, el: Element, parent: Option<nat>)
    requires f.forceParents && Sound(s.tree) && Placeable(s.tree, parent)
    ensures var (got, id) := GetItem(f, s, el, parent);
            && Sound(got.tree) && Placeable(got.tree, parent)
            && got.tree.Edges() == EdgesNotTo(s.tree.Edges(), id) + Above(Under(s.tree, el, parent), id)
  {
    var item, under := ItemOf(el, parent), Under(s.tree, el, parent);
    if Find(s.tree.items, item).None? {
      AddItemShaped(s.tree, item, under);
      AddItemCounts(s.tree, item, under);
      NoLinksToNew(s.tree, under);
    } else {
      var id := Find(s.tree.items, item).value;
      if item.kind == Theme {
        ThemeHasNoParents(s.tree, id);
      }
      if s.tree.parents[id] == under {
        SameParents(s.tree, id, under);
      } else {
        MoveItemShaped(s.tree, id, under);
        MoveItemCounts(s.tree, id, under);
      }
    }
  }

  lemma GetItemSound(f: Flags, s: State, el: Element, parent: Option<nat>)
    requires Sound(s.tree) && Placeable(s.tree, parent)
    ensures Sound(GetItem(f, s, el, parent).0.tree)
  {
    if f.forceParents {
      GetItemForced(f, s, el, parent);
    } else {
      GetItemKept(f, s, el, parent);
    }
  }

  lemma OrderSound(f: Flags, t: Tree, id: nat, server: seq<nat>)
    requires Sound(t) && t.Has(id) && forall k :: 0 <= k < |server| ==> server[k] < |t.items|
    requires MayBeUnder(t, id, server)
    ensures Sound(Order(f, t, id, server))
  {
    OrderShaped(f, t, id, server);
    OrderCounts(f, t, id, server);
    OrderIndexed(f, t, id, server);
  }

  /** Whatever the flags, themes never become children, themes hold groups only, layers hold nothing, and the two lists
    * of links agree. */
  lemma {:induction false} LayerSound(f: Flags, s: State, el: Element, parent: Option<nat>)
    requires Sound(s.tree) && Placeable(s.tree, parent)
    ensures Sound(SyncLayer(f, s, el, parent).0.tree)
    decreases el, 1
  {
    GetItemSound(f, s, el, parent);
    var (got, id) := GetItem(f, s, el, parent);
    InsideSound(f, got, el.layers, id);
    var (inside, server) := SyncInside(f, got, el.layers, id);
    OrderSound(f, inside.tree, id, server);
  }

  lemma {:induction false} InsideSound(f: Flags, s: State, layers: seq<Element>, id: nat)
    requires Sound(s.tree) && s.tree.Has(id) && (layers == [] || Placeable(s.tree, Some(id)))
    ensures var (after, server) := SyncInside(f, s, layers, id);
            Sound(after.tree) && MayBeUnder(after.tree, id, server)
    decreases layers, 0
  {
    if layers != [] {
      LayerSound(f, s, layers[0], Some(id));
      var (first, child) := SyncLayer(f, s, layers[0], Some(id));
      InsideSound(f, first, layers[1..], id);
    }
  }

  lemma {:induction false} AllSound(f: Flags, s: State, elements: seq<Element>)
    requires Sound(s.tree)
    ensures Sound(SyncAll(f, s, elements).tree)
    decreases |elements|
  {
    if elements != [] {
      LayerSound(f, s, elements[0], None);
      AllSound(f, SyncLayer(f, s, elements[0], None).0, elements[1..]);
    }
  }

  // No cycle at any time.

  /** No cycle after any step for an element and what is inside. */
  ghost predicate StaysAcyclic(f: Flags, s: State, el: Element, parent: Option<nat>)
    requires Indexed(s.tree) && (parent.Some? ==> s.tree.Has(parent.value))
    decreases el, 1
  {
    var (got, id) := GetItem(f, s, el, parent);
    && Acyclic(got.tree.Edges())
    && InsideStaysAcyclic(f, got, el.layers, id)
    && Acyclic(SyncLayer(f, s, el, parent).0.tree.Edges())
  }

  ghost predicate InsideStaysAcyclic(f: Flags, s: State, layers: seq<Element>, id: nat)
    requires Indexed(s.tree) && s.tree.Has(id)
    decreases layers, 0
  {
    layers == []
    || (StaysAcyclic(f, s, layers[0], Some(id))
        && InsideStaysAcyclic(f, SyncLayer(f, s, layers[0], Some(id)).0, layers[1..], id))
  }

  ghost predicate AllStayAcyclic(f: Flags, s: State, elements: seq<Element>)
    requires Indexed(s.tree)
    decreases |elements|
  {
    elements == []
    || (StaysAcyclic(f, s, elements[0], None)
        && AllStayAcyclic(f, SyncLayer(f, s, elements[0], None).0, elements[1..]))
  }

  // Both flags off.

  /** A new item has nothing below it. */
  lemma AcyclicWithNew(t: Tree, under: seq<nat>)
    requires Indexed(t) && |under| <= 1 && (forall k :: 0 <= k < |under| ==> under[k] < |t.items|)
    requires Consistent(t) && Acyclic(t.Edges())
    ensures Acyclic(t.Edges() + Above(under, |t.items|))
  {
    var id := |t.items|;
    if under == [] {
      assert t.Edges() + Above(under, id) == t.Edges();
    } else {
      assert Above(under, id) == {(under[0], id)} by {
        assert (under[0], id) in Above(under, id);
      }
      forall c ensures (id, c) !in t.Edges() {
        if 0 <= c < |t.items| {
          assert forall k :: 0 <= k < |t.parents[c]| ==> t.parents[c][k] != id;
        }
      }
      ReachesFromLeaf(t.Edges(), id, under[0]);
      AcyclicWithEdge(t.Edges(), under[0], id);
    }
  }

  lemma {:induction false} LayerKeeps(f: Flags, s: State, el: Element, parent: Option<nat>)
    requires !f.forceParents && !f.forceOrdering
    requires Sound(s.tree) && Placeable(s.tree, parent) && Acyclic(s.tree.Edges())
    ensures StaysAcyclic(f, s, el, parent)
    decreases el, 1
  {
    GetItemKept(f, s, el, parent);
    AcyclicWithNew(s.tree, Under(s.tree, el, parent));
    var (got, id) := GetItem(f, s, el, parent);
    InsideKeeps(f, got, el.layers, id);
  }

  lemma {:induction false} InsideKeeps(f: Flags, s: State, layers: seq<Element>, id: nat)
    requires !f.forceParents && !f.forceOrdering
    requires Sound(s.tree) && s.tree.Has(id) && (layers == [] || Placeable(s.tree, Some(id))) && Acyclic(s.tree.Edges())
    ensures InsideStaysAcyclic(f, s, layers, id) && Acyclic(SyncInside(f, s, layers, id).0.tree.Edges())
    decreases layers, 0
  {
    if layers != [] {
      LayerKeeps(f, s, layers[0], Some(id));
      LayerSound(f, s, layers[0], Some(id));
      InsideKeeps(f, SyncLayer(f, s, layers[0], Some(id)).0, layers[1..], id);
    }
  }

  /** With both flags off there is never a cycle, whatever the document. */
  lemma {:induction false} NoFlagsNoCycle(f: Flags, s: State, elements: seq<Element>)
    requires !f.forceParents && !f.forceOrdering
    requires Sound(s.tree) && Acyclic(s.tree.Edges())
    ensures AllStayAcyclic(f, s, elements)
    decreases |elements|
  {
    if elements != [] {
      LayerKeeps(f, s, elements[0], None);
      LayerSound(f, s, elements[0], None);
      NoFlagsNoCycle(f, SyncLayer(f, s, elements[0], None).0, elements[1..]);
    }
  }

  // force_parents on.

  /** No group of the document is inside a group of the same name. */
  predicate NoRepeat(el: Element, above: seq<string>)
    decreases el, 1
  {
    el.layers == [] || (el.name !in above && NoneRepeat(el.layers, above + [el.name]))
  }

  predicate NoneRepeat(layers: seq<Element>, above: seq<string>)
    decreases layers, 0
  {
    layers == [] || (NoRepeat(layers[0], above) && NoneRepeat(layers[1..], above))
  }

  /** The elements at the top are themes: only what is inside counts. */
  predicate NoGroupInsideItself(elements: seq<Element>) {
    forall i :: 0 <= i < |elements| ==> NoneRepeat(elements[i].layers, [])
  }

  /** A chain of links from a root, whose items have no other parents. */
  ghost predicate EdgeChain(edges: Edges, chain: seq<nat>) {
    && chain != []
    && (forall q :: (q, chain[0]) !in edges)
    && forall j, q :: 0 < j < |chain| ==> ((q, chain[j]) in edges <==> q == chain[j - 1])
  }

  /** Only the chain itself reaches its items. */
  lemma {:induction false} ReachesChain(edges: Edges, chain: seq<nat>, k: nat, x: int)
    requires EdgeChain(edges, chain) && k < |chain|
    ensures Reaches(edges, x, chain[k]) <==> exists j :: 0 <= j <= k && chain[j] == x
  {
    if k == 0 {
      ReachesRoot(edges, x, chain[0]);
    } else {
      ReachesThroughOnlyParent(edges, x, chain[k - 1], chain[k]);
      ReachesChain(edges, chain, k - 1, x);
    }
  }

  /** The open items: a theme, then the groups with these names, each the only parent of the next. */
  ghost predicate Open(t: Tree, chain: seq<nat>, above: seq<string>)
    requires t.Lists()
  {
    && |chain| == |above| + 1 && (forall j :: 0 <= j < |chain| ==> chain[j] < |t.items|)
    && t.IsA(chain[0], Theme)
    && (forall j :: 0 < j < |chain| ==> t.items[chain[j]] == Item(Group, above[j - 1]))
    && EdgeChain(t.Edges(), chain)
  }

  /** Links to an item outside the chain do not matter for the chain. */
  lemma ChainElsewhere(edges: Edges, after: Edges, chain: seq<nat>, id: nat)
    requires EdgeChain(edges, chain) && id !in chain
    requires forall e: (int, int) :: e.1 != id ==> (e in edges <==> e in after)
    ensures EdgeChain(after, chain)
  {
  }

  lemma NotOpen(t: Tree, chain: seq<nat>, above: seq<string>, id: nat, item: Item)
    requires t.Lists() && Open(t, chain, above) && t.Has(id) && t.items[id] == item
    requires item.kind == Group ==> item.name !in above
    requires item.kind != Theme
    ensures id !in chain
  {
  }

  /** The item of an element that repeats no open name gets under the last open item without a cycle. */
  lemma GotOpen(f: Flags, s: State, el: Element, chain: seq<nat>, above: seq<string>)
    requires f.forceParents && Sound(s.tree) && Open(s.tree, chain, above) && Acyclic(s.tree.Edges())
    requires el.layers != [] ==> el.name !in above
    requires Placeable(s.tree, Some(chain[|above|]))
    ensures var (got, id) := GetItem(f, s, el, Some(chain[|above|]));
            && Acyclic(got.tree.Edges()) && Open(got.tree, chain, above) && id !in chain
            && (el.layers != [] ==> Open(got.tree, chain + [id], above + [el.name]))
  {
    var last := chain[|above|];
    var (got, id) := GetItem(f, s, el, Some(last));
    GetItemForced(f, s, el, Some(last));
    var under := Under(s.tree, el, Some(last));
    var fewer := EdgesNotTo(s.tree.Edges(), id);
    assert id !in chain by {
      if id < |s.tree.items| {
        NotOpen(s.tree, chain, above, id, ItemOf(el, Some(last)));
      }
    }
    ChainElsewhere(s.tree.Edges(), fewer, chain, id);
    ChainElsewhere(fewer, got.tree.Edges(), chain, id);
    AcyclicFewer(s.tree.Edges(), fewer);
    if under == [] {
      assert got.tree.Edges() == fewer;
    } else {
      assert under == [last];
      assert Above(under, id) == {(last, id)} by {
        assert (under[0], id) in Above(under, id);
      }
      ReachesChain(fewer, chain, |above|, id);
      AcyclicWithEdge(fewer, last, id);
    }
    if el.layers != [] {
      var longer := chain + [id];
      forall j, q | 0 < j < |longer| ensures (q, longer[j]) in got.tree.Edges() <==> q == longer[j - 1] {
        if j == |chain| {
          assert (under[0], id) in Above(under, id);
        } else {
          assert longer[j] == chain[j];
        }
      }
      assert longer[0] == chain[0];
      forall j | 0 < j < |longer| ensures got.tree.items[longer[j]] == Item(Group, (above + [el.name])[j - 1]) {
        if j < |chain| {
          assert longer[j] == chain[j];
        }
      }
    }
  }

  /** Children outside the chain can be put under its last item without a cycle. */
  lemma OrderOpen(f: Flags, t: Tree, chain: seq<nat>, above: seq<string>, server: seq<nat>)
    requires Sound(t) && Open(t, chain, above) && Acyclic(t.Edges())
    requires forall k :: 0 <= k < |server| ==> server[k] < |t.items| && server[k] !in chain
    requires MayBeUnder(t, chain[|above|], server)
    ensures Acyclic(Order(f, t, chain[|above|], server).Edges())
    ensures Open(Order(f, t, chain[|above|], server), chain, above)
  {
    var last := chain[|above|];
    OrderShaped(f, t, last, server);
    OrderIndexed(f, t, last, server);
    var after := Order(f, t, last, server);
    forall k | 0 <= k < |server| ensures !Reaches(t.Edges(), server[k], last) {
      ReachesChain(t.Edges(), chain, |above|, server[k]);
    }
    AcyclicWithLinks(t.Edges(), last, server);
    forall j, q | 0 <= j < |chain| ensures (q, chain[j]) in after.Edges() <==> (q, chain[j]) in t.Edges() {
      assert (q, chain[j]) !in LinksTo(last, server);
    }
  }

  lemma OpenShorter(t: Tree, chain: seq<nat>, above: seq<string>, id: nat, name: string)
    requires t.Lists() && |chain| == |above| + 1 && Open(t, chain + [id], above + [name])
    ensures Open(t, chain, above)
  {
    var longer := chain + [id];
    assert chain[0] == longer[0];
    forall j | 0 <= j < |chain| ensures chain[j] < |t.items| {
      assert chain[j] == longer[j];
    }
    forall j | 0 < j < |chain| ensures t.items[chain[j]] == Item(Group, above[j - 1]) {
      assert chain[j] == longer[j] && (above + [name])[j - 1] == above[j - 1];
    }
    forall j, q | 0 < j < |chain| ensures (q, chain[j]) in t.Edges() <==> q == chain[j - 1] {
      assert chain[j] == longer[j] && chain[j - 1] == longer[j - 1];
    }
  }

  lemma {:induction false} LayerStays(f: Flags, s: State, el: Element, chain: seq<nat>, above: seq<string>)
    requires f.forceParents && Sound(s.tree) && Open(s.tree, chain, above) && Acyclic(s.tree.Edges())
    requires NoRepeat(el, above) && Placeable(s.tree, Some(chain[|above|]))
    ensures StaysAcyclic(f, s, el, Some(chain[|above|]))
    ensures var (after, id) := SyncLayer(f, s, el, Some(chain[|above|])); Open(after.tree, chain, above) && id !in chain
    decreases el, 1
  {
    var parent: Option<nat> := Some(chain[|above|]);
    GotOpen(f, s, el, chain, above);
    GetItemSound(f, s, el, parent);
    var (got, id) := GetItem(f, s, el, parent);
    if el.layers == [] {
      OrderSound(f, got.tree, id, []);
      assert SyncLayer(f, s, el, parent).0.tree == got.tree;
    } else {
      InsideStays(f, got, el.layers, chain + [id], above + [el.name]);
      InsideSound(f, got, el.layers, id);
      var (inside, server) := SyncInside(f, got, el.layers, id);
      OrderOpen(f, inside.tree, chain + [id], above + [el.name], server);
      OpenShorter(SyncLayer(f, s, el, parent).0.tree, chain, above, id, el.name);
    }
  }

  lemma {:induction false} InsideStays(f: Flags, s: State, layers: seq<Element>, chain: seq<nat>, above: seq<string>)
    requires f.forceParents && Sound(s.tree) && Open(s.tree, chain, above) && Acyclic(s.tree.Edges())
    requires NoneRepeat(layers, above) && Placeable(s.tree, Some(chain[|above|]))
    ensures InsideStaysAcyclic(f, s, layers, chain[|above|])
    ensures var (after, server) := SyncInside(f, s, layers, chain[|above|]);
            && Open(after.tree, chain, above) && Acyclic(after.tree.Edges())
            && forall k :: 0 <= k < |server| ==> server[k] !in chain
    decreases layers, 0
  {
    if layers != [] {
      var parent := chain[|above|];
      LayerStays(f, s, layers[0], chain, above);
      LayerSound(f, s, layers[0], Some(parent));
      InsideStays(f, SyncLayer(f, s, layers[0], Some(parent)).0, layers[1..], chain, above);
    }
  }

  /** A group inside a group of the same name: once it is under its parent there is a cycle. */
  lemma RepeatMakesCycle(f: Flags, s: State, el: Element, chain: seq<nat>, above: seq<string>)
    requires f.forceParents && Sound(s.tree) && Open(s.tree, chain, above)
    requires el.layers != [] && el.name in above && Placeable(s.tree, Some(chain[|above|]))
    ensures !Acyclic(GetItem(f, s, el, Some(chain[|above|])).0.tree.Edges())
  {
    var last := chain[|above|];
    var i :| 0 <= i < |above| && above[i] == el.name;
    var again := chain[i + 1];
    FindUnique(s.tree.items, Item(Group, el.name), again);
    GetItemForced(f, s, el, Some(last));
    var (got, id) := GetItem(f, s, el, Some(last));
    assert id == again;
    var under := Under(s.tree, el, Some(last));
    assert (under[0], id) in Above(under, id);
    WayAlongChain(s.tree.Edges(), got.tree.Edges(), chain, i + 1);
  }

  /** The links of a chain below one of its items do not depend on the links to this item. */
  lemma WayAlongChain(edges: Edges, after: Edges, chain: seq<nat>, i: nat)
    requires EdgeChain(edges, chain) && i < |chain|
    requires forall e: (int, int) :: e in edges && e.1 != chain[i] ==> e in after
    ensures Reaches(after, chain[i], chain[|chain| - 1])
  {
    var walk := chain[i..];
    forall j | 0 <= j < |walk| - 1 ensures (walk[j], walk[j + 1]) in after {
      ChainDistinct(edges, chain, i, i + j + 1);
      var e := (chain[i + j], chain[i + j + 1]);
      assert e in edges && e.1 != chain[i];
    }
    assert Walks(after, walk, chain[i], chain[|chain| - 1]);
  }

  /** No item is twice in a chain. */
  lemma {:induction false} ChainDistinct(edges: Edges, chain: seq<nat>, i: nat, j: nat)
    requires EdgeChain(edges, chain) && i < j < |chain|
    ensures chain[i] != chain[j]
  {
    assert (chain[j - 1], chain[j]) in edges;
    if i > 0 {
      ChainDistinct(edges, chain, i - 1, j - 1);
      assert (chain[i - 1], chain[i]) in edges;
    }
  }

  lemma {:induction false} LayerBreaks(f: Flags, s: State, el: Element, chain: seq<nat>, above: seq<string>)
    requires f.forceParents && Sound(s.tree) && Open(s.tree, chain, above) && Acyclic(s.tree.Edges())
    requires !NoRepeat(el, above) && Placeable(s.tree, Some(chain[|above|]))
    ensures !StaysAcyclic(f, s, el, Some(chain[|above|]))
    decreases el, 1
  {
    var parent: Option<nat> := Some(chain[|above|]);
    if el.name in above {
      RepeatMakesCycle(f, s, el, chain, above);
    } else {
      GotOpen(f, s, el, chain, above);
      GetItemSound(f, s, el, parent);
      var (got, id) := GetItem(f, s, el, parent);
      InsideBreaks(f, got, el.layers, chain + [id], above + [el.name]);
    }
  }

  lemma {:induction false} InsideBreaks(f: Flags, s: State, layers: seq<Element>, chain: seq<nat>, above: seq<string>)
    requires f.forceParents && Sound(s.tree) && Open(s.tree, chain, above) && Acyclic(s.tree.Edges())
    requires !NoneRepeat(layers, above) && Placeable(s.tree, Some(chain[|above|]))
    ensures !InsideStaysAcyclic(f, s, layers, chain[|above|])
    decreases layers, 0
  {
    var parent := chain[|above|];
    if NoRepeat(layers[0], above) {
      LayerStays(f, s, layers[0], chain, above);
      LayerSound(f, s, layers[0], Some(parent));
      InsideBreaks(f, SyncLayer(f, s, layers[0], Some(parent)).0, layers[1..], chain, above);
    } else {
      LayerBreaks(f, s, layers[0], chain, above);
    }
  }

  /** The same for an element at the top. */
  lemma TopStays(f: Flags, s: State, el: Element)
    requires f.forceParents && Sound(s.tree) && Acyclic(s.tree.Edges())
    ensures StaysAcyclic(f, s, el, None) <==> NoneRepeat(el.layers, [])
  {
    var (got, id) := GetItem(f, s, el, None);
    GetItemForced(f, s, el, None);
    var fewer := EdgesNotTo(s.tree.Edges(), id);
    assert got.tree.Edges() == fewer;
    AcyclicFewer(s.tree.Edges(), fewer);
    if el.layers == [] {
      OrderSound(f, got.tree, id, []);
    } else {
      ThemeHasNoParents(got.tree, id);
      assert Open(got.tree, [id], []);
      if NoneRepeat(el.layers, []) {
        InsideStays(f, got, el.layers, [id], []);
        InsideSound(f, got, el.layers, id);
        var (inside, server) := SyncInside(f, got, el.layers, id);
        OrderOpen(f, inside.tree, [id], [], server);
      } else {
        InsideBreaks(f, got, el.layers, [id], []);
      }
    }
  }

  /** With force_parents, with or without force_ordering, there is never a cycle exactly when no group of the document
    * is inside a group of the same name. */
  lemma {:induction false} ForceParentsNoCycle(f: Flags, s: State, elements: seq<Element>)
    requires f.forceParents && Sound(s.tree) && Acyclic(s.tree.Edges())
    ensures AllStayAcyclic(f, s, elements) <==> NoGroupInsideItself(elements)
    decreases |elements|
  {
    if elements != [] {
      TopStays(f, s, elements[0]);
      assert NoGroupInsideItself(elements) <==> NoneRepeat(elements[0].layers, []) && NoGroupInsideItself(elements[1..]) by {
        assert forall i :: 0 < i < |elements| ==> elements[i] == elements[1..][i - 1];
        assert forall i :: 0 <= i < |elements[1..]| ==> elements[1..][i] == elements[i + 1];
      }
      if NoneRepeat(elements[0].layers, []) {
        LayerSound(f, s, elements[0], None);
        ForceParentsNoCycle(f, SyncLayer(f, s, elements[0], None).0, elements[1..]);
      }
    }
  }

  /** A document with a group inside a group of the same name. */
  function NestedElement(): Element {
    Element("T", [Element("A", [Element("A", [Element("l", [])])])])
  }

  /** With force_parents this document makes a cycle over every database that has none, also over the empty one. */
  lemma ForceParentsMakesCycle(f: Flags, s: State)
    requires f.forceParents && Sound(s.tree) && Acyclic(s.tree.Edges())
    ensures !AllStayAcyclic(f, s, [NestedElement()])
    ensures Sound(Tree([], [], [])) && Acyclic(Tree([], [], []).Edges())
  {
    ForceParentsNoCycle(f, s, [NestedElement()]);
    var outer := NestedElement().layers[0];
    assert !NoRepeat(outer.layers[0], [] + ["A"]);
    assert !NoneRepeat(outer.layers, [] + ["A"]);
    assert outer.name == "A" && !NoRepeat(outer, []);
    assert !NoneRepeat([NestedElement()][0].layers, []);
  }
}
