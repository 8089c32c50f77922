/** What a run adds, said by the elements of the document in their order: the items, the numbers of the report, and, without
  * flags or with force_parents, the links. */
module SyncAdded {
  import opened Wrappers
  import opened TreeGraph
  import opened ChildrenLists
  import opened SyncTree
  import opened SyncCounts
  import opened SyncShape
  import opened SyncAcyclic
  import opened SyncOrdering
  import opened SyncDocuments
  import opened SyncFrame
  import opened SyncFixpoint

  /** The item that an element stands for, and the item around it. */
  datatype Place = Place(item: Item, outer: Option<Item>)

  /** An element without others inside is a layer, at the top it is otherwise a theme, and below a group. */
  function PlaceOf(el: Element, outer: Option<Item>): Place {
    Place(Item(if el.layers == [] then LayerWms else if outer.None? then Theme else Group, el.name), outer)
  }

  /** The elements in document order, each before those inside. */
  function ElementPlaces(el: Element, outer: Option<Item>): seq<Place>
    decreases el, 1
  {
    [PlaceOf(el, outer)] + InsidePlaces(el.layers, PlaceOf(el, outer).item)
  }

  function InsidePlaces(layers: seq<Element>, item: Item): seq<Place>
    decreases layers, 0
  {
    if layers == [] then [] else ElementPlaces(layers[0], Some(item)) + InsidePlaces(layers[1..], item)
  }

  function Places(elements: seq<Element>): seq<Place> {
    if elements == [] then [] else ElementPlaces(elements[0], None) + Places(elements[1..])
  }

  // Items and counters.

  function OneMore(items: seq<Item>, item: Item): seq<Item> {
    if item in items then items else items + [item]
  }

  /** The items with those of the places that are not there yet, in order. */
  function WithNew(items: seq<Item>, places: seq<Place>): seq<Item>
    decreases |places|
  {
    if places == [] then items else WithNew(OneMore(items, places[0].item), places[1..])
  }

  /** How many of the places have an item that is there when they come. */
  function FoundAmong(items: seq<Item>, places: seq<Place>): nat
    decreases |places|
  {
    if places == [] then 0
    else (if places[0].item in items then 1 else 0) + FoundAmong(OneMore(items, places[0].item), places[1..])
  }

  function CountKind(items: seq<Item>, kind: Kind): nat {
    if items == [] then 0
    else CountKind(items[..|items| - 1], kind) + if items[|items| - 1].kind == kind then 1 else 0
  }

  lemma {:induction false} WithNewConcat(items: seq<Item>, a: seq<Place>, b: seq<Place>)
    ensures WithNew(items, a + b) == WithNew(WithNew(items, a), b)
    ensures FoundAmong(items, a + b) == FoundAmong(items, a) + FoundAmong(WithNew(items, a), b)
    decreases |a|
  {
    if a == [] {
      assert a + b == b;
    } else {
      assert (a + b)[1..] == a[1..] + b;
      WithNewConcat(OneMore(items, a[0].item), a[1..], b);
    }
  }

  lemma WithNewOne(items: seq<Item>, p: Place, rest: seq<Place>)
    ensures WithNew(items, [p] + rest) == WithNew(OneMore(items, p.item), rest)
    ensures FoundAmong(items, [p] + rest) == (if p.item in items then 1 else 0) + FoundAmong(OneMore(items, p.item), rest)
  {
    assert ([p] + rest)[1..] == rest;
  }

  /** The items, and each counter by the items of its kind that were added. */
  ghost predicate Grown(s: State, after: State, places: seq<Place>) {
    && after.tree.items == WithNew(s.tree.items, places)
    && after.found == s.found + FoundAmong(s.tree.items, places)
    && AddedOf(s.tree.items, after.tree.items, Theme, after.themesAdded - s.themesAdded)
    && AddedOf(s.tree.items, after.tree.items, Group, after.groupsAdded - s.groupsAdded)
    && AddedOf(s.tree.items, after.tree.items, LayerWms, after.layersAdded - s.layersAdded)
  }

  predicate AddedOf(items: seq<Item>, after: seq<Item>, kind: Kind, n: int) {
    CountKind(after, kind) == CountKind(items, kind) + n
  }

  function OuterOf(t: Tree, parent: Option<nat>): Option<Item>
    requires parent.Some? ==> t.Has(parent.value)
  {
    if parent.Some? then Some(t.items[parent.value]) else None
  }

  lemma CountKindMore(items: seq<Item>, item: Item, kind: Kind)
    ensures CountKind(items + [item], kind) == CountKind(items, kind) + if item.kind == kind then 1 else 0
  {
    assert (items + [item])[..|items|] == items;
  }

  lemma GetItemGrown(f: Flags, s: State, el: Element, parent: Option<nat>)
    requires Indexed(s.tree) && (parent.Some? ==> s.tree.Has(parent.value))
    ensures var (got, id) := GetItem(f, s, el, parent);
            && Grown(s, got, [PlaceOf(el, OuterOf(s.tree, parent))])
            && got.tree.items[id] == PlaceOf(el, OuterOf(s.tree, parent)).item
  {
    var item := PlaceOf(el, OuterOf(s.tree, parent)).item;
    WithNewOne(s.tree.items, PlaceOf(el, OuterOf(s.tree, parent)), []);
    assert [PlaceOf(el, OuterOf(s.tree, parent))] + [] == [PlaceOf(el, OuterOf(s.tree, parent))];
    CountKindMore(s.tree.items, item, Theme);
    CountKindMore(s.tree.items, item, Group);
    CountKindMore(s.tree.items, item, LayerWms);
    assert Find(s.tree.items, item).Some? <==> item in s.tree.items;
  }

  lemma GrownTwice(s: State, first: State, after: State, a: seq<Place>, b: seq<Place>)
    requires Grown(s, first, a) && Grown(first, after, b)
    ensures Grown(s, after, a + b)
  {
    WithNewConcat(s.tree.items, a, b);
  }

  lemma {:induction false} LayerGrown(f: Flags, s: State, el: Element, parent: Option<nat>)
    requires Indexed(s.tree) && (parent.Some? ==> s.tree.Has(parent.value))
    ensures Grown(s, SyncLayer(f, s, el, parent).0, ElementPlaces(el, OuterOf(s.tree, parent)))
    decreases el, 1
  {
    var outer := OuterOf(s.tree, parent);
    var (got, id) := GetItem(f, s, el, parent);
    GetItemGrown(f, s, el, parent);
    var (inside, server) := SyncInside(f, got, el.layers, id);
    InsideGrown(f, got, el.layers, id);
    OrderIndexed(f, inside.tree, id, server);
    GrownTwice(s, got, inside, [PlaceOf(el, outer)], InsidePlaces(el.layers, PlaceOf(el, outer).item));
  }

  lemma {:induction false} InsideGrown(f: Flags, s: State, layers: seq<Element>, id: nat)
    requires Indexed(s.tree) && s.tree.Has(id)
    ensures Grown(s, SyncInside(f, s, layers, id).0, InsidePlaces(layers, s.tree.items[id]))
    decreases layers, 0
  {
    if layers != [] {
      var item := s.tree.items[id];
      var first := SyncLayer(f, s, layers[0], Some(id)).0;
      LayerGrown(f, s, layers[0], Some(id));
      InsideGrown(f, first, layers[1..], id);
      GrownTwice(s, first, SyncInside(f, s, layers, id).0, ElementPlaces(layers[0], Some(item)), InsidePlaces(layers[1..], item));
    }
  }

  lemma {:induction false} AllGrown(f: Flags, s: State, elements: seq<Element>)
    requires Indexed(s.tree)
    ensures Grown(s, SyncAll(f, s, elements), Places(elements))
    decreases |elements|
  {
    if elements != [] {
      var first := SyncLayer(f, s, elements[0], None).0;
      LayerGrown(f, s, elements[0], None);
      AllGrown(f, first, elements[1..]);
      GrownTwice(s, first, SyncAll(f, s, elements), ElementPlaces(elements[0], None), Places(elements[1..]));
    }
  }

  /** Whatever the flags: a run adds the items of the document that are not there, in document order, and its report says how
    * many elements were found, and how many themes, groups and layers were added. */
  lemma RunAdds(f: Flags, t: Tree, elements: seq<Element>)
    requires Indexed(t)
    ensures var after := Synchronize(f, t, elements);
            && after.tree.items == WithNew(t.items, Places(elements))
            && after.found == FoundAmong(t.items, Places(elements))
            && AddedOf(t.items, after.tree.items, Theme, after.themesAdded)
            && AddedOf(t.items, after.tree.items, Group, after.groupsAdded)
            && AddedOf(t.items, after.tree.items, LayerWms, after.layersAdded)
  {
    AllGrown(f, State(t, 0, 0, 0, 0), elements);
  }

  // The links without flags.

  /** The link that a place adds: when its item is new, from the item around it, if this may hold it. */
  function LinkOf(items: seq<Item>, p: Place): NamedLinks {
    if p.item !in items && p.outer.Some? && KindsFit(p.outer.value.kind, p.item.kind) then {(p.outer.value, p.item)} else {}
  }

  function NewLinks(items: seq<Item>, places: seq<Place>): NamedLinks
    decreases |places|
  {
    if places == [] then {} else LinkOf(items, places[0]) + NewLinks(OneMore(items, places[0].item), places[1..])
  }

  lemma {:induction false} NewLinksConcat(items: seq<Item>, a: seq<Place>, b: seq<Place>)
    ensures NewLinks(items, a + b) == NewLinks(items, a) + NewLinks(WithNew(items, a), b)
    decreases |a|
  {
    if a == [] {
      assert a + b == b;
    } else {
      assert (a + b)[1..] == a[1..] + b;
      NewLinksConcat(OneMore(items, a[0].item), a[1..], b);
    }
  }

  lemma NewLinksOne(items: seq<Item>, p: Place)
    ensures NewLinks(items, [p]) == LinkOf(items, p)
  {
    assert NewLinks(OneMore(items, p.item), []) == {};
    assert [p][1..] == [];
  }

  lemma GetItemLinks(f: Flags, s: State, el: Element, parent: Option<nat>, all: seq<Item>)
    requires !f.forceParents && Sound(s.tree) && Placeable(s.tree, parent)
    requires GetItem(f, s, el, parent).0.tree.items <= all && Distinctive(all)
    ensures GetItem(f, s, el, parent).0.tree.Edges()
         == s.tree.Edges() + Ids(all, LinkOf(s.tree.items, PlaceOf(el, OuterOf(s.tree, parent))))
  {
    var (got, id) := GetItem(f, s, el, parent);
    GetItemKept(f, s, el, parent);
    var item := PlaceOf(el, OuterOf(s.tree, parent)).item;
    IdInLonger(got.tree.items, all, id);
    if parent.Some? {
      IdInLonger(s.tree.items, all, parent.value);
    }
    if item !in s.tree.items {
      var under := Under(s.tree, el, parent);
      assert Above(under, id) == if under == [] then {} else {(under[0], id)} by {
        assert under != [] ==> (under[0], id) in Above(under, id);
      }
    }
  }

  lemma {:induction false} LayerLinks(f: Flags, s: State, el: Element, parent: Option<nat>, all: seq<Item>)
    requires f == Flags(false, false) && Sound(s.tree) && Placeable(s.tree, parent)
    requires SyncLayer(f, s, el, parent).0.tree.items <= all && Distinctive(all)
    ensures SyncLayer(f, s, el, parent).0.tree.Edges()
         == s.tree.Edges() + Ids(all, NewLinks(s.tree.items, ElementPlaces(el, OuterOf(s.tree, parent))))
    decreases el, 1
  {
    var outer := OuterOf(s.tree, parent);
    var p := PlaceOf(el, outer);
    var (got, id) := GetItem(f, s, el, parent);
    GetItemSound(f, s, el, parent);
    GetItemGrown(f, s, el, parent);
    GetItemLinks(f, s, el, parent, all);
    InsideLinks(f, got, el.layers, id, all);
    NewLinksConcat(s.tree.items, [p], InsidePlaces(el.layers, p.item));
    NewLinksOne(s.tree.items, p);
    IdsMore(all, LinkOf(s.tree.items, p), NewLinks(got.tree.items, InsidePlaces(el.layers, p.item)));
  }

  lemma {:induction false} InsideLinks(f: Flags, s: State, layers: seq<Element>, id: nat, all: seq<Item>)
    requires f == Flags(false, false) && Sound(s.tree) && s.tree.Has(id) && (layers == [] || Placeable(s.tree, Some(id)))
    requires SyncInside(f, s, layers, id).0.tree.items <= all && Distinctive(all)
    ensures SyncInside(f, s, layers, id).0.tree.Edges()
         == s.tree.Edges() + Ids(all, NewLinks(s.tree.items, InsidePlaces(layers, s.tree.items[id])))
    decreases layers, 0
  {
    if layers == [] {
      assert Ids(all, {}) == {};
    } else {
      var item := s.tree.items[id];
      var a, b := ElementPlaces(layers[0], Some(item)), InsidePlaces(layers[1..], item);
      var first := SyncLayer(f, s, layers[0], Some(id)).0;
      LayerSound(f, s, layers[0], Some(id));
      LayerGrown(f, s, layers[0], Some(id));
      LayerLinks(f, s, layers[0], Some(id), all);
      InsideLinks(f, first, layers[1..], id, all);
      NewLinksConcat(s.tree.items, a, b);
      IdsMore(all, NewLinks(s.tree.items, a), NewLinks(first.tree.items, b));
    }
  }

  lemma {:induction false} AllNewLinks(f: Flags, s: State, elements: seq<Element>, all: seq<Item>)
    requires f == Flags(false, false) && Sound(s.tree) && SyncAll(f, s, elements).tree.items <= all && Distinctive(all)
    ensures SyncAll(f, s, elements).tree.Edges() == s.tree.Edges() + Ids(all, NewLinks(s.tree.items, Places(elements)))
    decreases |elements|
  {
    if elements == [] {
      assert Ids(all, {}) == {};
    } else {
      var a, b := ElementPlaces(elements[0], None), Places(elements[1..]);
      var first := SyncLayer(f, s, elements[0], None).0;
      LayerSound(f, s, elements[0], None);
      LayerGrown(f, s, elements[0], None);
      LayerLinks(f, s, elements[0], None, all);
      AllNewLinks(f, first, elements[1..], all);
      NewLinksConcat(s.tree.items, a, b);
      IdsMore(all, NewLinks(s.tree.items, a), NewLinks(first.tree.items, b));
    }
  }

  /** With both flags off: the links afterwards are those from before, and one for each new item, from the item around the
    * first of its elements, if this may hold it: a theme holds groups only. */
  lemma NoFlagsLinks(t: Tree, elements: seq<Element>)
    requires Sound(t)
    ensures var after := Synchronize(Flags(false, false), t, elements).tree;
            after.Edges() == t.Edges() + Ids(after.items, NewLinks(t.items, Places(elements)))
  {
    var s := State(t, 0, 0, 0, 0);
    AllSound(Flags(false, false), s, elements);
    AllNewLinks(Flags(false, false), s, elements, SyncAll(Flags(false, false), s, elements).tree.items);
  }

  // The parents with force_parents.

  /** The only parent is the item around the element, if this may hold it. */
  ghost predicate ParentIs(t: Tree, p: Place)
    requires t.Lists()
  {
    var id := IdOf(t.items, p.item);
    && id < |t.items|
    && t.parents[id] == if p.outer.Some? && KindsFit(p.outer.value.kind, p.item.kind) then [IdOf(t.items, p.outer.value)] else []
  }

  lemma {:induction false} SettledParents(f: Flags, t: Tree, el: Element, parent: Option<nat>, p: Place)
    requires f.forceParents && Sound(t) && Settled(f, t, el, parent) && p in ElementPlaces(el, OuterOf(t, parent))
    requires p.item.kind != Theme
    ensures ParentIs(t, p)
    decreases el, 1
  {
    var own := PlaceOf(el, OuterOf(t, parent));
    var id := IdOf(t.items, own.item);
    IdIn(t.items, own.item);
    if p == own {
      if parent.Some? {
        IdInLonger(t.items, t.items, parent.value);
      }
    } else {
      SettledInsideParents(f, t, el.layers, id, p);
    }
  }

  lemma {:induction false} SettledInsideParents(f: Flags, t: Tree, layers: seq<Element>, id: nat, p: Place)
    requires f.forceParents && Sound(t) && t.Has(id) && SettledInside(f, t, layers, id)
    requires p in InsidePlaces(layers, t.items[id]) && p.item.kind != Theme
    ensures ParentIs(t, p)
    decreases layers, 0
  {
    if p in ElementPlaces(layers[0], Some(t.items[id])) {
      SettledParents(f, t, layers[0], Some(id), p);
    } else {
      SettledInsideParents(f, t, layers[1..], id, p);
    }
  }

  lemma {:induction false} AllSettledParents(f: Flags, t: Tree, elements: seq<Element>, p: Place)
    requires f.forceParents && Sound(t) && AllSettled(f, t, elements) && p in Places(elements) && p.item.kind != Theme
    ensures ParentIs(t, p)
  {
    if p in ElementPlaces(elements[0], None) {
      SettledParents(f, t, elements[0], None, p);
    } else {
      AllSettledParents(f, t, elements[1..], p);
    }
  }

  /** With force_parents, and no two elements of the document with the same name and kind: every group and layer of the
    * document has only the parent that the document gives it, and what is not in the document keeps its parents. */
  lemma ForcedParents(f: Flags, t: Tree, elements: seq<Element>)
    requires f.forceParents && Sound(t) && DistinctAll(elements) && (f.forceOrdering ==> Once(f, t, DocumentOf(elements)))
    ensures var after := Synchronize(f, t, elements).tree;
            && (forall p :: p in Places(elements) && p.item.kind != Theme ==> ParentIs(after, p))
            && forall x :: 0 <= x < |t.items| && t.items[x] !in AllItems(elements) ==> after.parents[x] == t.parents[x]
  {
    var s, d := State(t, 0, 0, 0, 0), DocumentOf(elements);
    var after := Synchronize(f, t, elements).tree;
    DocumentFits(elements);
    AllSettle(f, s, elements, d);
    forall p | p in Places(elements) && p.item.kind != Theme ensures ParentIs(after, p) {
      AllSettledParents(f, after, elements, p);
    }
    forall x | 0 <= x < |t.items| && t.items[x] !in AllItems(elements) ensures after.parents[x] == t.parents[x] {
      AllLeave(f, s, elements, x, d);
    }
  }
}
