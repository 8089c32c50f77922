/** With force_ordering alone the document's links are added to those of the database: what is then linked, and when that
  * makes a cycle. */
module SyncOrdering {
  import opened Wrappers
  import opened TreeGraph
  import opened ChildrenLists
  import opened SyncTree
  import opened SyncCounts
  import opened SyncShape
  import opened SyncAcyclic

  type NamedLinks = set<(Item, Item)>

  /** The item of an element that is not at the top. */
  function Inner(el: Element): Item {
    Item(if el.layers == [] then LayerWms else Group, el.name)
  }

  /** The links of the document from an item to the elements inside, and further inside; a theme holds no layers. */
  function DocumentLinks(item: Item, layers: seq<Element>): NamedLinks
    decreases layers, 0
  {
    if layers == [] then {} else ElementLinks(item, layers[0]) + DocumentLinks(item, layers[1..])
  }

  function ElementLinks(item: Item, el: Element): NamedLinks
    decreases el, 1
  {
    (if item.kind == Theme && el.layers == [] then {} else {(item, Inner(el))}) + DocumentLinks(Inner(el), el.layers)
  }

  function AllLinks(elements: seq<Element>): NamedLinks {
    if elements == [] then {}
    else DocumentLinks(ItemOf(elements[0], None), elements[0].layers) + AllLinks(elements[1..])
  }

  function IdOf(items: seq<Item>, item: Item): nat {
    match Find(items, item)
    case Some(id) => id
    case None => |items|
  }

  /** The same links by the ids of the items. */
  function Ids(items: seq<Item>, links: NamedLinks): Edges {
    set e | e in links :: (IdOf(items, e.0), IdOf(items, e.1))
  }

  lemma IdsMore(items: seq<Item>, a: NamedLinks, b: NamedLinks)
    ensures Ids(items, a + b) == Ids(items, a) + Ids(items, b)
  {
  }

  ghost predicate Distinctive(items: seq<Item>) {
    forall i, j :: 0 <= i < j < |items| ==> items[i] != items[j]
  }

  lemma IdInLonger(items: seq<Item>, all: seq<Item>, id: nat)
    requires items <= all && Distinctive(all) && id < |items|
    ensures IdOf(all, items[id]) == id
  {
  }

  /** The link to an element, and those inside. */
  lemma ElementIds(all: seq<Item>, item: Item, el: Element, id: nat, child: nat)
    requires IdOf(all, item) == id && IdOf(all, Inner(el)) == child
    ensures Ids(all, ElementLinks(item, el))
         == (if item.kind == Theme && el.layers == [] then {} else {(id, child)})
            + Ids(all, DocumentLinks(Inner(el), el.layers))
  {
  }

  lemma LinksToFirst(id: nat, child: nat, server: seq<nat>)
    ensures LinksTo(id, [child] + server) == {(id, child)} + LinksTo(id, server)
  {
    LinksToMore({}, id, [child] + server);
    assert ([child] + server)[1..] == server;
  }

  /** Links were only added; apart from `extra` they are the inner ones. */
  ghost predicate Adds(before: Edges, after: Edges, inner: Edges, extra: Edges) {
    before <= after && after + extra == before + inner + extra
  }

  lemma AddsBoth(before: Edges, first: Edges, after: Edges, own: Edges, inner: Edges, others: Edges, server: Edges)
    requires Adds(before, first, inner, own) && Adds(first, after, others, server) && server <= others
    ensures Adds(before, after, own + inner + others, own + server)
    ensures own + server <= own + inner + others
  {
  }

  lemma AddsFirst(all: seq<Item>, item: Item, layers: seq<Element>, id: nat, child: nat, server: seq<nat>,
                  before: Edges, first: Edges, after: Edges)
    requires layers != [] && IdOf(all, item) == id && IdOf(all, Inner(layers[0])) == child
    requires var under := if item.kind == Theme && layers[0].layers == [] then [] else [id];
             Adds(before, first, Ids(all, DocumentLinks(Inner(layers[0]), layers[0].layers)), Above(under, child))
    requires Adds(first, after, Ids(all, DocumentLinks(item, layers[1..])), LinksTo(id, server))
    requires LinksTo(id, server) <= Ids(all, DocumentLinks(item, layers[1..]))
    ensures var longer := (if item.kind == Theme && layers[0].layers == [] then [] else [child]) + server;
            && Adds(before, after, Ids(all, DocumentLinks(item, layers)), LinksTo(id, longer))
            && LinksTo(id, longer) <= Ids(all, DocumentLinks(item, layers))
  {
    var own: Edges := if item.kind == Theme && layers[0].layers == [] then {} else {(id, child)};
    var under := if item.kind == Theme && layers[0].layers == [] then [] else [id];
    var longer := (if item.kind == Theme && layers[0].layers == [] then [] else [child]) + server;
    assert Above(under, child) == own by {
      assert under != [] ==> (under[0], child) in Above(under, child);
    }
    assert LinksTo(id, longer) == own + LinksTo(id, server) by {
      LinksToFirst(id, child, server);
      assert [] + server == server;
    }
    ElementIds(all, item, layers[0], id, child);
    IdsMore(all, ElementLinks(item, layers[0]), DocumentLinks(item, layers[1..]));
    AddsBoth(before, first, after, own, Ids(all, DocumentLinks(Inner(layers[0]), layers[0].layers)),
             Ids(all, DocumentLinks(item, layers[1..])), LinksTo(id, server));
  }

  lemma AddsOrdered(before: Edges, got: Edges, inside: Edges, after: Edges, above: Edges, inner: Edges, server: Edges)
    requires got == before || got == before + above
    requires Adds(got, inside, inner, server) && server <= inner && after == inside + server
    ensures Adds(before, after, inner, above)
  {
  }

  /** Synchronizing an element adds the links inside, and maybe the one above. */
  lemma {:induction false} LayerAdds(f: Flags, s: State, el: Element, parent: Option<nat>, all: seq<Item>)
    requires f.forceOrdering && !f.forceParents && Sound(s.tree) && Placeable(s.tree, parent)
    requires SyncLayer(f, s, el, parent).0.tree.items <= all && Distinctive(all)
    ensures var (after, id) := SyncLayer(f, s, el, parent);
            Adds(s.tree.Edges(), after.tree.Edges(), Ids(all, DocumentLinks(ItemOf(el, parent), el.layers)),
                 Above(Under(s.tree, el, parent), id))
    decreases el, 1
  {
    var (got, id) := GetItem(f, s, el, parent);
    GetItemKept(f, s, el, parent);
    var (inside, server) := SyncInside(f, got, el.layers, id);
    OrderIndexed(f, inside.tree, id, server);
    InsideSound(f, got, el.layers, id);
    OrderShaped(f, inside.tree, id, server);
    InsideAdds(f, got, el.layers, id, all);
    assert el.layers == [] ==> LinksTo(id, server) == {};
    var after := Order(f, inside.tree, id, server);
    assert after.Edges() == inside.tree.Edges() + LinksTo(id, server);
    AddsOrdered(s.tree.Edges(), got.tree.Edges(), inside.tree.Edges(), after.Edges(),
                Above(Under(s.tree, el, parent), id), Ids(all, DocumentLinks(ItemOf(el, parent), el.layers)),
                LinksTo(id, server));
  }

  lemma {:induction false} InsideAdds(f: Flags, s: State, layers: seq<Element>, id: nat, all: seq<Item>)
    requires f.forceOrdering && !f.forceParents && Sound(s.tree) && s.tree.Has(id)
    requires layers == [] || Placeable(s.tree, Some(id))
    requires SyncInside(f, s, layers, id).0.tree.items <= all && Distinctive(all)
    ensures var (after, server) := SyncInside(f, s, layers, id);
            && Adds(s.tree.Edges(), after.tree.Edges(), Ids(all, DocumentLinks(s.tree.items[id], layers)), LinksTo(id, server))
            && LinksTo(id, server) <= Ids(all, DocumentLinks(s.tree.items[id], layers))
    decreases layers, 0, 1
  {
    if layers == [] {
      assert LinksTo(id, []) == {};
    } else {
      var (first, child) := SyncLayer(f, s, layers[0], Some(id));
      LayerSound(f, s, layers[0], Some(id));
      var (after, server) := SyncInside(f, first, layers[1..], id);
      InsideAddsMore(f, s, layers, id, all, first, child, after, server);
    }
  }

  lemma {:induction false} InsideAddsMore(f: Flags, s: State, layers: seq<Element>, id: nat, all: seq<Item>,
                                          first: State, child: nat, after: State, server: seq<nat>)
    requires f.forceOrdering && !f.forceParents && Sound(s.tree) && layers != [] && Placeable(s.tree, Some(id))
    requires Sound(first.tree) && SyncLayer(f, s, layers[0], Some(id)) == (first, child)
    requires SyncInside(f, first, layers[1..], id) == (after, server)
    requires after.tree.items <= all && Distinctive(all)
    ensures var longer := (if s.tree.items[id].kind == Theme && layers[0].layers == [] then [] else [child]) + server;
            && Adds(s.tree.Edges(), after.tree.Edges(), Ids(all, DocumentLinks(s.tree.items[id], layers)), LinksTo(id, longer))
            && LinksTo(id, longer) <= Ids(all, DocumentLinks(s.tree.items[id], layers))
    decreases layers, 0, 0
  {
    var item := s.tree.items[id];
    LayerAdds(f, s, layers[0], Some(id), all);
    assert first.tree.items[id] == item;
    InsideAdds(f, first, layers[1..], id, all);
    IdInLonger(s.tree.items, all, id);
    IdInLonger(first.tree.items, all, child);
    AddsFirst(all, item, layers, id, child, server, s.tree.Edges(), first.tree.Edges(), after.tree.Edges());
  }

  lemma {:induction false} AllAdded(f: Flags, s: State, elements: seq<Element>, all: seq<Item>)
    requires f.forceOrdering && !f.forceParents && Sound(s.tree)
    requires SyncAll(f, s, elements).tree.items <= all && Distinctive(all)
    ensures SyncAll(f, s, elements).tree.Edges() == s.tree.Edges() + Ids(all, AllLinks(elements))
    decreases |elements|
  {
    if elements != [] {
      var el := elements[0];
      var (first, id) := SyncLayer(f, s, el, None);
      LayerAdds(f, s, el, None, all);
      LayerSound(f, s, el, None);
      AllAdded(f, first, elements[1..], all);
      IdsMore(all, DocumentLinks(ItemOf(el, None), el.layers), AllLinks(elements[1..]));
    }
  }

  /** With force_ordering alone, the links afterwards are those from before and those of the document. */
  lemma OrderingAddsDocumentLinks(f: Flags, s: State, elements: seq<Element>)
    requires f.forceOrdering && !f.forceParents && Sound(s.tree)
    ensures var after := SyncAll(f, s, elements).tree;
            after.Edges() == s.tree.Edges() + Ids(after.items, AllLinks(elements))
  {
    AllSound(f, s, elements);
    AllAdded(f, s, elements, SyncAll(f, s, elements).tree.items);
  }

  // Links are only added, so that a cycle remains.

  lemma {:induction false} LayerWithin(f: Flags, s: State, el: Element, parent: Option<nat>, edges: Edges)
    requires f.forceOrdering && !f.forceParents && Sound(s.tree) && Placeable(s.tree, parent)
    requires SyncLayer(f, s, el, parent).0.tree.Edges() <= edges && Acyclic(edges)
    ensures StaysAcyclic(f, s, el, parent)
    decreases el, 1
  {
    var (got, id) := GetItem(f, s, el, parent);
    GetItemKept(f, s, el, parent);
    var (inside, server) := SyncInside(f, got, el.layers, id);
    InsideSound(f, got, el.layers, id);
    OrderShaped(f, inside.tree, id, server);
    InsideGrows(f, got, el.layers, id);
    InsideWithin(f, got, el.layers, id, edges);
    AcyclicFewer(edges, got.tree.Edges());
    AcyclicFewer(edges, SyncLayer(f, s, el, parent).0.tree.Edges());
  }

  lemma {:induction false} InsideGrows(f: Flags, s: State, layers: seq<Element>, id: nat)
    requires f.forceOrdering && !f.forceParents && Sound(s.tree) && s.tree.Has(id)
    requires layers == [] || Placeable(s.tree, Some(id))
    ensures s.tree.Edges() <= SyncInside(f, s, layers, id).0.tree.Edges()
    decreases layers, 0
  {
    if layers != [] {
      InsideSound(f, s, layers, id);
      InsideAdds(f, s, layers, id, SyncInside(f, s, layers, id).0.tree.items);
    }
  }

  lemma {:induction false} InsideWithin(f: Flags, s: State, layers: seq<Element>, id: nat, edges: Edges)
    requires f.forceOrdering && !f.forceParents && Sound(s.tree) && s.tree.Has(id)
    requires layers == [] || Placeable(s.tree, Some(id))
    requires SyncInside(f, s, layers, id).0.tree.Edges() <= edges && Acyclic(edges)
    ensures InsideStaysAcyclic(f, s, layers, id)
    decreases layers, 0
  {
    if layers != [] {
      LayerSound(f, s, layers[0], Some(id));
      var first := SyncLayer(f, s, layers[0], Some(id)).0;
      InsideGrows(f, first, layers[1..], id);
      LayerWithin(f, s, layers[0], Some(id), edges);
      InsideWithin(f, first, layers[1..], id, edges);
    }
  }

  lemma {:induction false} AllWithin(f: Flags, s: State, elements: seq<Element>, edges: Edges)
    requires f.forceOrdering && !f.forceParents && Sound(s.tree)
    requires SyncAll(f, s, elements).tree.Edges() <= edges && Acyclic(edges)
    ensures AllStayAcyclic(f, s, elements)
    decreases |elements|
  {
    if elements != [] {
      LayerSound(f, s, elements[0], None);
      var first := SyncLayer(f, s, elements[0], None).0;
      OrderingAddsDocumentLinks(f, first, elements[1..]);
      LayerWithin(f, s, elements[0], None, edges);
      AllWithin(f, first, elements[1..], edges);
    }
  }

  lemma {:induction false} LastIsAcyclic(f: Flags, s: State, elements: seq<Element>)
    requires Indexed(s.tree) && Acyclic(s.tree.Edges()) && AllStayAcyclic(f, s, elements)
    ensures Acyclic(SyncAll(f, s, elements).tree.Edges())
    decreases |elements|
  {
    if elements != [] {
      LastIsAcyclic(f, SyncLayer(f, s, elements[0], None).0, elements[1..]);
    }
  }

  // Links by item instead of by id.

  /** The links between ids of these items. */
  predicate Within(items: seq<Item>, edges: Edges) {
    forall e: (int, int) :: e in edges ==> 0 <= e.0 < |items| && 0 <= e.1 < |items|
  }

  /** The same links by item. */
  function Named(items: seq<Item>, edges: Edges): NamedLinks
    requires Within(items, edges)
  {
    set e | e in edges :: (items[e.0], items[e.1])
  }

  /** The links of a database by item. */
  function NamedEdges(t: Tree): NamedLinks
    requires Indexed(t)
  {
    EdgesWithin(t);
    Named(t.items, t.Edges())
  }

  lemma EdgesWithin(t: Tree)
    requires Indexed(t)
    ensures Within(t.items, t.Edges())
  {
  }

  lemma NamedWalk(items: seq<Item>, edges: Edges, walk: seq<int>, a: int, b: int)
    requires Within(items, edges) && 0 <= a < |items| && 0 <= b < |items| && Walks(edges, walk, a, b)
    ensures Reaches(Named(items, edges), items[a], items[b])
  {
    forall i | 0 <= i < |walk| ensures 0 <= walk[i] < |items| {
      assert i > 0 ==> (walk[i - 1], walk[i]) in edges;
    }
    var named := seq(|walk|, i requires 0 <= i < |walk| => items[walk[i]]);
    assert forall i :: 0 <= i < |walk| - 1 ==> (walk[i], walk[i + 1]) in edges;
    assert Walks(Named(items, edges), named, items[a], items[b]);
  }

  lemma NamedLinkIds(items: seq<Item>, edges: Edges, a: int, b: int)
    requires Within(items, edges) && Distinctive(items) && 0 <= a < |items| && 0 <= b < |items|
    requires (items[a], items[b]) in Named(items, edges)
    ensures (a, b) in edges
  {
    var e :| e in edges && (items[e.0], items[e.1]) == (items[a], items[b]);
    assert e.0 == a && e.1 == b;
  }

  lemma {:induction false} WalkOfNamed(items: seq<Item>, edges: Edges, named: seq<Item>, a: int, b: int)
    requires Within(items, edges) && Distinctive(items) && 0 <= a < |items| && 0 <= b < |items|
    requires Walks(Named(items, edges), named, items[a], items[b])
    ensures Reaches(edges, a, b)
    decreases |named|
  {
    if |named| == 1 {
      assert a == b;
      ReachesSelf(edges, a);
    } else {
      assert (named[0], named[1]) in Named(items, edges);
      var e :| e in edges && (items[e.0], items[e.1]) == (named[0], named[1]);
      NamedLinkIds(items, edges, a, e.1);
      assert Walks(Named(items, edges), named[1..], items[e.1], items[b]);
      WalkOfNamed(items, edges, named[1..], e.1, b);
      ReachesByEdge(edges, a, e.1);
      ReachesTransitive(edges, a, e.1, b);
    }
  }

  /** There is a cycle by id exactly when there is one by item. */
  lemma AcyclicNamed(items: seq<Item>, edges: Edges)
    requires Within(items, edges) && Distinctive(items)
    ensures Acyclic(edges) <==> Acyclic(Named(items, edges))
  {
    forall a, b | (a, b) in edges ensures Reaches(edges, b, a) <==> Reaches(Named(items, edges), items[b], items[a]) {
      if walk :| Walks(edges, walk, b, a) {
        NamedWalk(items, edges, walk, b, a);
      }
      if named :| Walks(Named(items, edges), named, items[b], items[a]) {
        WalkOfNamed(items, edges, named, b, a);
      }
    }
    if Acyclic(edges) {
      forall x, y | (x, y) in Named(items, edges) ensures !Reaches(Named(items, edges), y, x) {
        var e :| e in edges && (items[e.0], items[e.1]) == (x, y);
        assert (e.0, e.1) in edges;
      }
    }
    if Acyclic(Named(items, edges)) {
      forall a, b | (a, b) in edges ensures !Reaches(edges, b, a) {
        assert (items[a], items[b]) in Named(items, edges);
      }
    }
  }

  /** After the run, the links by item are those of the database and of the document. */
  lemma NamedAfter(t: Tree, after: Tree, links: NamedLinks)
    requires Indexed(t) && Indexed(after) && t.items <= after.items && Distinctive(after.items)
    requires after.Edges() == t.Edges() + Ids(after.items, links)
    ensures NamedEdges(after) == NamedEdges(t) + links
  {
    EdgesWithin(t);
    EdgesWithin(after);
    forall pair: (Item, Item) ensures pair in NamedEdges(after) <==> pair in NamedEdges(t) + links {
      if pair in links {
        IdsHas(after.items, links, pair);
        var e := (IdOf(after.items, pair.0), IdOf(after.items, pair.1));
        assert e in after.Edges();
        assert (after.items[e.0], after.items[e.1]) == pair;
      }
      if pair in NamedEdges(t) {
        var e :| e in t.Edges() && (t.items[e.0], t.items[e.1]) == pair;
        assert e in after.Edges();
        assert (after.items[e.0], after.items[e.1]) == pair;
      }
      if pair in NamedEdges(after) {
        var e :| e in after.Edges() && (after.items[e.0], after.items[e.1]) == pair;
        if e in t.Edges() {
          assert (t.items[e.0], t.items[e.1]) == pair;
        } else {
          assert e in Ids(after.items, links);
          var l :| l in links && e == (IdOf(after.items, l.0), IdOf(after.items, l.1));
        }
      }
    }
  }

  lemma IdsHas(items: seq<Item>, links: NamedLinks, pair: (Item, Item))
    requires pair in links
    ensures (IdOf(items, pair.0), IdOf(items, pair.1)) in Ids(items, links)
  {
  }

  /** With force_ordering alone there is never a cycle exactly when the links of the database and of the document have
    * none together, taken as links between items. */
  lemma ForceOrderingNoCycle(f: Flags, s: State, elements: seq<Element>)
    requires f.forceOrdering && !f.forceParents && Sound(s.tree) && Acyclic(s.tree.Edges())
    ensures AllStayAcyclic(f, s, elements) <==> Acyclic(NamedEdges(s.tree) + AllLinks(elements))
  {
    var after := SyncAll(f, s, elements).tree;
    OrderingAddsDocumentLinks(f, s, elements);
    AllSound(f, s, elements);
    NamedAfter(s.tree, after, AllLinks(elements));
    EdgesWithin(after);
    AcyclicNamed(after.items, after.Edges());
    if Acyclic(after.Edges()) {
      AllWithin(f, s, elements, after.Edges());
    }
    if AllStayAcyclic(f, s, elements) {
      LastIsAcyclic(f, s, elements);
    }
  }

  /** A database in which the group A is under the group B. */
  function Crossed(): Tree {
    Tree([Item(Group, "A"), Item(Group, "B")], [[], [Link(0, 0)]], [[1], []])
  }

  lemma CrossedSound()
    ensures Sound(Crossed()) && Crossed().Edges() == {(1, 0)} && Acyclic(Crossed().Edges())
  {
    var t := Crossed();
    assert Items(t.links[1]) == [0] && Items(t.links[0]) == [];
    assert t.parents[0] == [1] && t.parents[1] == [];
    assert Consistent(t) by {
      forall p, c | 0 <= p < 2 && 0 <= c < 2 ensures c in t.Children(p) <==> p in t.parents[c] {
        assert c in t.Children(p) <==> p == 1 && c == 0;
      }
    }
    assert WellKinded(t) by {
      assert Linkable(t, 1, 0);
    }
    assert SameCounts(t) by {
      CountOfItems(t.links[0], 0);
      CountOfItems(t.links[0], 1);
      CountOfItems(t.links[1], 0);
      CountOfItems(t.links[1], 1);
    }
    assert t.Edges() == {(1, 0)};
    ReachesFromLeaf(t.Edges(), 0, 1);
  }

  /** A document that puts the group B inside the group A. */
  function CrossingElement(): Element {
    Element("T", [Element("A", [Element("B", [Element("l", [])])])])
  }

  lemma CrossingLinks()
    ensures (Item(Group, "A"), Item(Group, "B")) in AllLinks([CrossingElement()])
    ensures NoGroupInsideItself([CrossingElement()])
  {
  }

  /** With force_ordering alone this document makes a cycle over the database above, though no group is inside a group of
    * the same name. */
  lemma OrderingMakesCycle()
    ensures Sound(Crossed()) && Acyclic(Crossed().Edges()) && NoGroupInsideItself([CrossingElement()])
    ensures !AllStayAcyclic(Flags(false, true), State(Crossed(), 0, 0, 0, 0), [CrossingElement()])
  {
    CrossedSound();
    CrossingLinks();
    var f, s, elements := Flags(false, true), State(Crossed(), 0, 0, 0, 0), [CrossingElement()];
    ForceOrderingNoCycle(f, s, elements);
    var a, b := Item(Group, "A"), Item(Group, "B");
    var links := NamedEdges(Crossed()) + AllLinks(elements);
    assert (1, 0) in Crossed().Edges();
    assert (a, b) in links && (b, a) in links;
    assert Walks(links, [b, a], b, a);
  }
}
