/** The synchronization of the layer tree with the capabilities of an OGC server, as functions of the database. */
module SyncTree {
  import opened Wrappers
  import opened TreeGraph
  import opened ChildrenLists

  /** A Layer element of the capabilities: its name and the Layer elements inside. */
  datatype Element = Element(name: string, layers: seq<Element>)

  datatype Kind = Theme | Group | LayerWms | LayerWmts | LayerCog | LayerVectorTiles

  /** The kind and the name of a tree item; together they are unique. */
  datatype Item = Item(kind: Kind, name: string)

  /** The tree items, by id, with their lists of children and of parents. */
  datatype Tree = Tree(items: seq<Item>, links: seq<seq<Link>>, parents: seq<seq<nat>>)
  {
    predicate Has(id: nat) {
      id < |items|
    }

    predicate IsA(id: nat, kind: Kind) {
      id < |items| && items[id].kind == kind
    }

    function Edges(): Edges
      requires Lists()
    {
      set p, c | 0 <= c < |parents| && p in parents[c] :: (p, c)
    }

    predicate Lists() {
      |links| == |parents| == |items|
    }

    function Children(id: nat): seq<nat>
      requires Lists() && Has(id)
    {
      Items(links[id])
    }
  }

  /** The lists are about items of the tree. */
  predicate Indexed(t: Tree) {
    && t.Lists()
    && (forall c, k :: 0 <= c < |t.items| && 0 <= k < |t.parents[c]| ==> t.parents[c][k] < |t.items|)
    && (forall p, k :: 0 <= p < |t.items| && 0 <= k < |t.links[p]| ==> t.links[p][k].item < |t.items|)
  }

  /** The two lists say the same. */
  ghost predicate Consistent(t: Tree) {
    && Indexed(t)
    && (forall p, c :: 0 <= p < |t.items| && 0 <= c < |t.items| ==> (c in t.Children(p) <==> p in t.parents[c]))
  }

  /** Themes have no parents, layers no children, and themes have groups only. */
  ghost predicate WellKinded(t: Tree)
    requires t.Lists()
  {
    forall p, c :: 0 <= c < |t.items| && p in t.parents[c] ==> Linkable(t, p, c)
  }

  predicate Linkable(t: Tree, p: nat, c: nat) {
    (t.IsA(p, Theme) && t.IsA(c, Group))
    || (t.IsA(p, Group) && t.Has(c) && t.items[c].kind != Theme)
  }

  ghost predicate UniqueItems(t: Tree) {
    forall i, j :: 0 <= i < j < |t.items| ==> t.items[i] != t.items[j]
  }

  datatype Flags = Flags(forceParents: bool, forceOrdering: bool)

  /** The database and the counters of the report. */
  datatype State = State(tree: Tree, found: nat, themesAdded: nat, groupsAdded: nat, layersAdded: nat)

  function Find(items: seq<Item>, item: Item): (id: Option<nat>)
    ensures id.Some? ==> id.value < |items| && items[id.value] == item
    ensures id.None? ==> item !in items
  {
    if items == [] then None
    else if items[|items| - 1] == item then Some(|items| - 1)
    else Find(items[..|items| - 1], item)
  }

  /** A new item, last, under these parents. */
  function AddItem(t: Tree, item: Item, under: seq<nat>): Tree
    requires t.Lists() && |under| <= 1 && forall k :: 0 <= k < |under| ==> under[k] < |t.items|
  {
    var id := |t.items|;
    Tree(t.items + [item], Append(t.links, under, id) + [[]], t.parents + [under])
  }

  /** A new link to `id` at the end of the children of each of `under`. */
  function Append(links: seq<seq<Link>>, under: seq<nat>, id: nat): (after: seq<seq<Link>>)
    requires |under| <= 1 && forall k :: 0 <= k < |under| ==> under[k] < |links|
    ensures |after| == |links|
  {
    if under == [] then links else links[under[0] := links[under[0]] + [Link(id, 0)]]
  }

  function RemoveItem(links: seq<Link>, id: nat): (after: seq<Link>)
    ensures forall l :: l in after <==> l in links && l.item != id
  {
    if links == [] then []
    else
      assert forall l :: l in links <==> l == links[0] || l in links[1..];
      (if links[0].item == id then [] else [links[0]]) + RemoveItem(links[1..], id)
  }

  /** Replaces the parents of an item. */
  function MoveItem(t: Tree, id: nat, under: seq<nat>): Tree
    requires t.Lists() && t.Has(id) && |under| <= 1 && forall k :: 0 <= k < |under| ==> under[k] < |t.items|
  {
    var removed := seq(|t.links|, p requires 0 <= p < |t.links| => RemoveItem(t.links[p], id));
    Tree(t.items, Append(removed, under, id), t.parents[id := under])
  }

  function GetTheme(s: State, name: string): (State, nat)
    requires s.tree.Lists()
  {
    match Find(s.tree.items, Item(Theme, name))
    case Some(id) => (s.(found := s.found + 1), id)
    case None =>
      (s.(tree := AddItem(s.tree, Item(Theme, name), []), themesAdded := s.themesAdded + 1), |s.tree.items|)
  }

  function GetLayerGroup(f: Flags, s: State, name: string, parent: nat): (State, nat)
    requires s.tree.Lists() && s.tree.Has(parent)
  {
    match Find(s.tree.items, Item(Group, name))
    case Some(id) =>
      var found := s.(found := s.found + 1);
      if f.forceParents && s.tree.parents[id] != [parent] then (found.(tree := MoveItem(s.tree, id, [parent])), id)
      else (found, id)
    case None =>
      (s.(tree := AddItem(s.tree, Item(Group, name), [parent]), groupsAdded := s.groupsAdded + 1), |s.tree.items|)
  }

  /** A layer is linked under groups only. */
  function LayerParents(t: Tree, parent: Option<nat>): (under: seq<nat>)
    ensures |under| <= 1
    ensures forall k :: 0 <= k < |under| ==> under[k] < |t.items|
  {
    if parent.Some? && t.IsA(parent.value, Group) then [parent.value] else []
  }

  function GetLayerWms(f: Flags, s: State, name: string, parent: Option<nat>): (State, nat)
    requires s.tree.Lists()
  {
    var under := LayerParents(s.tree, parent);
    match Find(s.tree.items, Item(LayerWms, name))
    case Some(id) =>
      var found := s.(found := s.found + 1);
      if f.forceParents && s.tree.parents[id] != under then (found.(tree := MoveItem(s.tree, id, under)), id)
      else (found, id)
    case None =>
      (s.(tree := AddItem(s.tree, Item(LayerWms, name), under), layersAdded := s.layersAdded + 1), |s.tree.items|)
  }

  /** The children that the capabilities do not have. */
  function External(children: seq<nat>, server: seq<nat>): seq<nat> {
    if children == [] then []
    else (if children[0] in server then [] else [children[0]]) + External(children[1..], server)
  }

  /** The parents after the ordered mode of _set_children placed the children: one more for each link it added. */
  function ParentsPlaced(parents: seq<seq<nat>>, group: nat, links: seq<Link>, children: seq<nat>, index: nat): (after: seq<seq<nat>>)
    requires index <= |children| && forall k :: 0 <= k < |children| ==> children[k] < |parents|
    ensures |after| == |parents|
    ensures forall c, p :: 0 <= c < |after| && p in after[c] ==> p in parents[c] || p == group
    decreases |children| - index
  {
    if index == |children| then parents
    else
      var child := children[index];
      var more := if CountOf(links, child) == 1 then parents else parents[child := parents[child] + [group]];
      ParentsPlaced(more, group, Place(links, child, index * 10), children, index + 1)
  }

  function SetChildren(t: Tree, group: nat, children: seq<nat>): Tree
    requires t.Lists() && t.Has(group) && forall k :: 0 <= k < |children| ==> children[k] < |t.items|
  {
    Tree(t.items, t.links[group := SetChildrenOrdered(t.links[group], children)],
         ParentsPlaced(t.parents, group, t.links[group], children, 0))
  }

  /** The ordering step: the children of the capabilities first. */
  function Order(f: Flags, t: Tree, id: nat, server: seq<nat>): Tree
    requires Indexed(t) && t.Has(id) && forall k :: 0 <= k < |server| ==> server[k] < |t.items|
  {
    if f.forceOrdering && (t.IsA(id, Theme) || t.IsA(id, Group)) then
      var children := server + External(t.Children(id), server);
      ExternalHas(t.Children(id), server);
      assert forall k :: 0 <= k < |children| ==> children[k] in children;
      if t.Children(id) != children then SetChildren(t, id, children) else t
    else t
  }

  lemma {:induction false} ExternalHas(children: seq<nat>, server: seq<nat>)
    ensures forall x :: x in External(children, server) <==> x in children && x !in server
  {
    if children != [] {
      ExternalHas(children[1..], server);
      assert forall x :: x in children <==> x == children[0] || x in children[1..];
    }
  }

  lemma {:induction false} PlaceAllMembers(links: seq<Link>, children: seq<nat>, index: nat)
    requires index <= |children|
    ensures forall x :: x in Items(PlaceAll(links, children, index)) <==> x in Items(links) || x in children[index..]
    decreases |children| - index
  {
    if index < |children| {
      var child := children[index];
      var next := Place(links, child, index * 10);
      assert forall x :: x in Items(next) <==> x == child || x in Items(links) by {
        if CountOf(links, child) != 1 {
          assert Items(next) == Items(links) + [child];
        }
      }
      PlaceAllMembers(links, children, index + 1);
      PlaceAllMembers(next, children, index + 1);
      assert children[index..] == [child] + children[index + 1..];
    }
  }

  /** Setting children in the ordered mode keeps the present ones and adds the others. */
  lemma OrderedMembers(links: seq<Link>, children: seq<nat>)
    ensures forall x :: x in Items(SetChildrenOrdered(links, children)) <==> x in Items(links) || x in children
  {
    var placed := PlaceAll(links, children, 0);
    PlaceAllMembers(links, children, 0);
    assert children[0..] == children;
    SortMembers(placed);
    var sorted := SortLinks(placed);
    forall x ensures x in Items(sorted) <==> x in Items(placed) {
      if x in Items(sorted) {
        var k :| 0 <= k < |sorted| && Items(sorted)[k] == x;
        assert sorted[k] in placed;
        var j :| 0 <= j < |placed| && placed[j] == sorted[k];
        assert Items(placed)[j] == x;
      }
      if x in Items(placed) {
        var k :| 0 <= k < |placed| && Items(placed)[k] == x;
        assert placed[k] in sorted;
        var j :| 0 <= j < |sorted| && sorted[j] == placed[k];
        assert Items(sorted)[j] == x;
      }
    }
  }

  lemma AddItemIndexed(t: Tree, item: Item, under: seq<nat>)
    requires Indexed(t) && |under| <= 1 && forall k :: 0 <= k < |under| ==> under[k] < |t.items|
    ensures Indexed(AddItem(t, item, under))
  {
  }

  lemma MoveItemIndexed(t: Tree, id: nat, under: seq<nat>)
    requires Indexed(t) && t.Has(id) && |under| <= 1 && forall k :: 0 <= k < |under| ==> under[k] < |t.items|
    ensures Indexed(MoveItem(t, id, under))
  {
  }

  /** Who is a parent after the ordered mode placed children under a group. */
  lemma {:induction false} ParentsPlacedMembers(parents: seq<seq<nat>>, group: nat, links: seq<Link>, children: seq<nat>, index: nat)
    requires index <= |children| && forall k :: 0 <= k < |children| ==> children[k] < |parents|
    requires forall c :: 0 <= c < |parents| ==> (c in Items(links) <==> group in parents[c])
    ensures var after := ParentsPlaced(parents, group, links, children, index);
            forall c, p :: 0 <= c < |parents| ==>
              (p in after[c] <==> p in parents[c] || (p == group && c in children[index..]))
    decreases |children| - index
  {
    if index < |children| {
      var child := children[index];
      var next := Place(links, child, index * 10);
      var more := if CountOf(links, child) == 1 then parents else parents[child := parents[child] + [group]];
      assert forall x :: x in Items(next) <==> x == child || x in Items(links) by {
        if CountOf(links, child) != 1 {
          assert Items(next) == Items(links) + [child];
        }
      }
      assert forall c, p :: 0 <= c < |parents| ==> (p in more[c] <==> p in parents[c] || (p == group && c == child));
      ParentsPlacedMembers(more, group, next, children, index + 1);
      assert children[index..] == [child] + children[index + 1..];
    }
  }

  lemma SetChildrenIndexed(t: Tree, group: nat, children: seq<nat>)
    requires Indexed(t) && t.Has(group) && forall k :: 0 <= k < |children| ==> children[k] < |t.items|
    ensures Indexed(SetChildren(t, group, children))
  {
    var after := SetChildren(t, group, children);
    OrderedMembers(t.links[group], children);
    forall k | 0 <= k < |after.links[group]| ensures after.links[group][k].item < |t.items| {
      var x := Items(after.links[group])[k];
      if x in Items(t.links[group]) {
        var j :| 0 <= j < |t.links[group]| && Items(t.links[group])[j] == x;
      }
    }
    forall c, k | 0 <= c < |t.items| && 0 <= k < |after.parents[c]| ensures after.parents[c][k] < |t.items| {
      assert after.parents[c][k] in after.parents[c];
    }
  }

  lemma OrderIndexed(f: Flags, t: Tree, id: nat, server: seq<nat>)
    requires Indexed(t) && t.Has(id) && forall k :: 0 <= k < |server| ==> server[k] < |t.items|
    ensures Indexed(Order(f, t, id, server)) && Order(f, t, id, server).items == t.items
  {
    var children := server + External(t.Children(id), server);
    ExternalHas(t.Children(id), server);
    assert forall k :: 0 <= k < |children| ==> children[k] in children;
    SetChildrenIndexed(t, id, children);
  }

  /** The item for an element: its theme, group or layer, found or added. */
  function GetItem(f: Flags, s: State, el: Element, parent: Option<nat>): (r: (State, nat))
    requires Indexed(s.tree) && (parent.Some? ==> s.tree.Has(parent.value))
    ensures Indexed(r.0.tree) && s.tree.items <= r.0.tree.items && r.0.tree.Has(r.1)
    ensures r.0.tree.items[r.1] == ItemOf(el, parent)
  {
    if el.layers == [] then
      var under := LayerParents(s.tree, parent);
      AddItemIndexed(s.tree, Item(LayerWms, el.name), under);
      assert Find(s.tree.items, Item(LayerWms, el.name)).Some? ==>
          Indexed(MoveItem(s.tree, Find(s.tree.items, Item(LayerWms, el.name)).value, under)) by {
        if Find(s.tree.items, Item(LayerWms, el.name)).Some? {
          MoveItemIndexed(s.tree, Find(s.tree.items, Item(LayerWms, el.name)).value, under);
        }
      }
      GetLayerWms(f, s, el.name, parent)
    else if parent.None? then
      AddItemIndexed(s.tree, Item(Theme, el.name), []);
      GetTheme(s, el.name)
    else
      AddItemIndexed(s.tree, Item(Group, el.name), [parent.value]);
      assert Find(s.tree.items, Item(Group, el.name)).Some? ==>
          Indexed(MoveItem(s.tree, Find(s.tree.items, Item(Group, el.name)).value, [parent.value])) by {
        if Find(s.tree.items, Item(Group, el.name)).Some? {
          MoveItemIndexed(s.tree, Find(s.tree.items, Item(Group, el.name)).value, [parent.value]);
        }
      }
      GetLayerGroup(f, s, el.name, parent.value)
  }

  /** The item an element stands for: a layer when nothing is inside, otherwise a theme at the top and a group below. */
  function ItemOf(el: Element, parent: Option<nat>): Item {
    Item(if el.layers == [] then LayerWms else if parent.None? then Theme else Group, el.name)
  }

  /** Synchronizes an element with what is inside it. */
  function SyncLayer(f: Flags, s: State, el: Element, parent: Option<nat>): (r: (State, nat))
    requires Indexed(s.tree) && (parent.Some? ==> s.tree.Has(parent.value))
    ensures Indexed(r.0.tree) && s.tree.items <= r.0.tree.items && r.0.tree.Has(r.1)
    ensures r.0.tree.items[r.1] == ItemOf(el, parent)
    decreases el, 1
  {
    var (got, id) := GetItem(f, s, el, parent);
    var (inside, server) := SyncInside(f, got, el.layers, id);
    OrderIndexed(f, inside.tree, id, server);
    (inside.(tree := Order(f, inside.tree, id, server)), id)
  }

  /** Synchronizes the elements inside one, and tells which of the items are children that the server gives: not the
    * layers of a theme. */
  function SyncInside(f: Flags, s: State, layers: seq<Element>, id: nat): (r: (State, seq<nat>))
    requires Indexed(s.tree) && s.tree.Has(id)
    ensures Indexed(r.0.tree) && s.tree.items <= r.0.tree.items
    ensures forall k :: 0 <= k < |r.1| ==> r.1[k] < |r.0.tree.items|
    decreases layers, 0
  {
    if layers == [] then (s, [])
    else
      var (first, child) := SyncLayer(f, s, layers[0], Some(id));
      var (rest, server) := SyncInside(f, first, layers[1..], id);
      (rest, (if first.tree.IsA(id, Theme) && first.tree.IsA(child, LayerWms) then [] else [child]) + server)
  }

  /** The whole document: the elements directly inside the root layer. */
  function SyncAll(f: Flags, s: State, elements: seq<Element>): (r: State)
    requires Indexed(s.tree)
    ensures Indexed(r.tree) && s.tree.items <= r.tree.items
    decreases |elements|
  {
    if elements == [] then s else SyncAll(f, SyncLayer(f, s, elements[0], None).0, elements[1..])
  }

  function Synchronize(f: Flags, t: Tree, elements: seq<Element>): State
    requires Indexed(t)
  {
    SyncAll(f, State(t, 0, 0, 0, 0), elements)
  }

  // The report adds up.

  function CountElements(el: Element): nat
    decreases el, 1
  {
    1 + CountAll(el.layers)
  }

  function CountAll(elements: seq<Element>): nat
    decreases elements, 0
  {
    if elements == [] then 0 else CountElements(elements[0]) + CountAll(elements[1..])
  }

  function Counted(s: State): nat {
    s.found + s.themesAdded + s.groupsAdded + s.layersAdded
  }

  lemma {:induction false} LayerCounted(f: Flags, s: State, el: Element, parent: Option<nat>)
    requires Indexed(s.tree) && (parent.Some? ==> s.tree.Has(parent.value))
    ensures Counted(SyncLayer(f, s, el, parent).0) == Counted(s) + CountElements(el)
    decreases el, 1
  {
    var (got, id) := GetItem(f, s, el, parent);
    InsideCounted(f, got, el.layers, id);
  }

  lemma {:induction false} InsideCounted(f: Flags, s: State, layers: seq<Element>, id: nat)
    requires Indexed(s.tree) && s.tree.Has(id)
    ensures Counted(SyncInside(f, s, layers, id).0) == Counted(s) + CountAll(layers)
    decreases layers, 0
  {
    if layers != [] {
      LayerCounted(f, s, layers[0], Some(id));
      InsideCounted(f, SyncLayer(f, s, layers[0], Some(id)).0, layers[1..], id);
    }
  }

  lemma {:induction false} AllCounted(f: Flags, s: State, elements: seq<Element>)
    requires Indexed(s.tree)
    ensures Counted(SyncAll(f, s, elements)) == Counted(s) + CountAll(elements)
    decreases |elements|
  {
    if elements != [] {
      LayerCounted(f, s, elements[0], None);
      AllCounted(f, SyncLayer(f, s, elements[0], None).0, elements[1..]);
    }
  }

  /** Found and added items are as many as the Layer elements below the root layer. */
  lemma ReportAddsUp(f: Flags, t: Tree, elements: seq<Element>)
    requires Indexed(t)
    ensures Counted(Synchronize(f, t, elements)) == CountAll(elements)
  {
    AllCounted(f, State(t, 0, 0, 0, 0), elements);
  }
}
