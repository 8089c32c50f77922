/** The synchronizer as it runs: the rows of the database and the counters of the report, updated in place. */
module Synchronizer {
  import opened Wrappers
  import opened ChildrenLists
  import opened SyncTree

  /** The first `k` elements inside are done: the rest gives the remaining children. */
  ghost predicate InsideIs(f: Flags, got: State, layers: seq<Element>, id: nat, k: nat, now: State, server: seq<nat>)
    requires Indexed(got.tree) && got.tree.Has(id) && k <= |layers|
  {
    && Indexed(now.tree) && now.tree.Has(id)
    && var (rest, more) := SyncInside(f, now, layers[k..], id);
       SyncInside(f, got, layers, id) == (rest, server + more)
  }

  lemma InsideStart(f: Flags, got: State, layers: seq<Element>, id: nat)
    requires Indexed(got.tree) && got.tree.Has(id)
    ensures InsideIs(f, got, layers, id, 0, got, [])
  {
    assert layers[0..] == layers;
    var (rest, more) := SyncInside(f, got, layers, id);
    assert [] + more == more;
  }

  lemma InsideNext(f: Flags, got: State, layers: seq<Element>, id: nat, k: nat, now: State, server: seq<nat>)
    requires Indexed(got.tree) && got.tree.Has(id) && k < |layers| && InsideIs(f, got, layers, id, k, now, server)
    ensures Indexed(now.tree) && now.tree.Has(id)
    ensures var (next, child) := SyncLayer(f, now, layers[k], Some(id));
            InsideIs(f, got, layers, id, k + 1, next,
                     if next.tree.IsA(id, Theme) && next.tree.IsA(child, LayerWms) then server else server + [child])
  {
    assert layers[k..][0] == layers[k] && layers[k..][1..] == layers[k + 1..];
    var (next, child) := SyncLayer(f, now, layers[k], Some(id));
    var (rest, more) := SyncInside(f, next, layers[k + 1..], id);
    assert server + ([] + more) == server + more;
    assert server + ([child] + more) == server + [child] + more;
  }

  lemma InsideDone(f: Flags, got: State, layers: seq<Element>, id: nat, now: State, server: seq<nat>)
    requires Indexed(got.tree) && got.tree.Has(id) && InsideIs(f, got, layers, id, |layers|, now, server)
    ensures SyncInside(f, got, layers, id) == (now, server)
  {
    assert layers[|layers|..] == [] && server + [] == server;
  }

  class OGCServerSynchronizer {
    const flags: Flags
    var items: seq<Item>
    var links: seq<seq<Link>>
    var parents: seq<seq<nat>>
    var itemsFound: nat
    var themesAdded: nat
    var groupsAdded: nat
    var layersAdded: nat

    constructor (flags: Flags, t: Tree)
      ensures this.flags == flags && Database() == t
    {
      this.flags := flags;
      items, links, parents := t.items, t.links, t.parents;
      itemsFound, themesAdded, groupsAdded, layersAdded := 0, 0, 0, 0;
    }

    function Database(): Tree
      reads this
    {
      Tree(items, links, parents)
    }

    function Contents(): State
      reads this
    {
      State(Database(), itemsFound, themesAdded, groupsAdded, layersAdded)
    }

    method FindItem(item: Item) returns (id: Option<nat>)
      ensures id == Find(items, item)
    {
      var k := |items|;
      assert items[..k] == items;
      while k > 0
        invariant 0 <= k <= |items| && Find(items, item) == Find(items[..k], item)
      {
        k := k - 1;
        assert items[..k + 1][..k] == items[..k];
        if items[k] == item {
          return Some(k);
        }
      }
      id := None;
    }

    method Add(item: Item, under: seq<nat>) returns (id: nat)
      requires Database().Lists() && |under| <= 1 && forall k :: 0 <= k < |under| ==> under[k] < |items|
      modifies `items, `links, `parents
      ensures id == |old(items)| && Database() == AddItem(old(Database()), item, under)
    {
      id := |items|;
      items := items + [item];
      links := Append(links, under, id) + [[]];
      parents := parents + [under];
    }

    /** Replaces the parents of an item: its rows are removed everywhere, and added to the new parent. */
    method Move(id: nat, under: seq<nat>)
      requires Database().Lists() && id < |items|
      requires |under| <= 1 && forall k :: 0 <= k < |under| ==> under[k] < |items|
      modifies `links, `parents
      ensures Database() == MoveItem(old(Database()), id, under)
    {
      ghost var before := links;
      var p := 0;
      while p < |links|
        invariant 0 <= p <= |links| == |before| && parents == old(parents)
        invariant forall q :: 0 <= q < p ==> links[q] == RemoveItem(before[q], id)
        invariant forall q :: p <= q < |links| ==> links[q] == before[q]
      {
        links := links[p := RemoveItem(links[p], id)];
        p := p + 1;
      }
      assert links == seq(|before|, q requires 0 <= q < |before| => RemoveItem(before[q], id));
      links := Append(links, under, id);
      parents := parents[id := under];
    }

    method GetTheme(name: string) returns (id: nat)
      requires Database().Lists()
      modifies this
      ensures (Contents(), id) == SyncTree.GetTheme(old(Contents()), name)
    {
      var found := FindItem(Item(Theme, name));
      if found.None? {
        id := Add(Item(Theme, name), []);
        themesAdded := themesAdded + 1;
      } else {
        id := found.value;
        itemsFound := itemsFound + 1;
      }
    }

    method GetLayerGroup(name: string, parent: nat) returns (id: nat)
      requires Database().Lists() && parent < |items|
      modifies this
      ensures (Contents(), id) == SyncTree.GetLayerGroup(flags, old(Contents()), name, parent)
    {
      var found := FindItem(Item(Group, name));
      if found.None? {
        id := Add(Item(Group, name), [parent]);
        groupsAdded := groupsAdded + 1;
      } else {
        id := found.value;
        itemsFound := itemsFound + 1;
        if flags.forceParents && parents[id] != [parent] {
          Move(id, [parent]);
        }
      }
    }

    method GetLayerWms(name: string, parent: Option<nat>) returns (id: nat)
      requires Database().Lists()
      modifies this
      ensures (Contents(), id) == SyncTree.GetLayerWms(flags, old(Contents()), name, parent)
    {
      var under := LayerParents(Database(), parent);
      var found := FindItem(Item(LayerWms, name));
      if found.None? {
        id := Add(Item(LayerWms, name), under);
        layersAdded := layersAdded + 1;
      } else {
        id := found.value;
        itemsFound := itemsFound + 1;
        if flags.forceParents && parents[id] != under {
          Move(id, under);
        }
      }
    }

    /** Sets the children of a theme or group in the ordered mode; the present ones must be among them. */
    method SetChildren(group: nat, children: seq<nat>)
      requires Database().Lists() && group < |items| && forall k :: 0 <= k < |children| ==> children[k] < |items|
      requires forall x :: x in Items(links[group]) ==> x in children
      modifies `links, `parents
      ensures Database() == SyncTree.SetChildren(old(Database()), group, children)
    {
      var relation, above := links[group], parents;
      var index := 0;
      while index < |children|
        invariant 0 <= index <= |children| && |above| == |items| && links == old(links) && parents == old(parents)
        invariant PlaceAll(relation, children, index) == PlaceAll(links[group], children, 0)
        invariant ParentsPlaced(above, group, relation, children, index)
               == ParentsPlaced(parents, group, links[group], children, 0)
      {
        var child := children[index];
        if CountOf(relation, child) == 1 {
          relation := Reorder(relation, child, index * 10);
        } else {
          relation, above := relation + [Link(child, index * 10)], above[child := above[child] + [group]];
        }
        index := index + 1;
      }
      links, parents := links[group := SortLinks(relation)], above;
    }

    /** The item of an element: a layer, a theme or a group. */
    method GetTreeItem(el: Element, parent: Option<nat>) returns (id: nat)
      requires Indexed(Database()) && (parent.Some? ==> parent.value < |items|)
      modifies this
      ensures (Contents(), id) == GetItem(flags, old(Contents()), el, parent)
    {
      if el.layers == [] {
        id := GetLayerWms(el.name, parent);
      } else if parent.None? {
        id := GetTheme(el.name);
      } else {
        id := GetLayerGroup(el.name, parent.value);
      }
    }

    /** Forces the order of the children: those of the server first. */
    method OrderChildren(id: nat, server: seq<nat>)
      requires Indexed(Database()) && id < |items| && forall k :: 0 <= k < |server| ==> server[k] < |items|
      modifies `links, `parents
      ensures Database() == Order(flags, old(Database()), id, server)
    {
      if flags.forceOrdering && (items[id].kind == Theme || items[id].kind == Group) {
        var children := server + External(Items(links[id]), server);
        ExternalHas(Items(links[id]), server);
        assert forall j :: 0 <= j < |children| ==> children[j] in children;
        if Items(links[id]) != children {
          SetChildren(id, children);
        }
      }
    }

    /** Does the elements inside one and collects the children that the server gives to it. */
    method SynchronizeInside(layers: seq<Element>, id: nat) returns (server: seq<nat>)
      requires Indexed(Database()) && id < |items|
      modifies this
      ensures Indexed(Database()) && (Contents(), server) == SyncInside(flags, old(Contents()), layers, id)
      decreases layers, 0
    {
      ghost var got := Contents();
      server := [];
      var k := 0;
      InsideStart(flags, got, layers, id);
      while k < |layers|
        invariant 0 <= k <= |layers| && Indexed(Database()) && id < |items|
        invariant InsideIs(flags, got, layers, id, k, Contents(), server)
      {
        ghost var now := Contents();
        InsideNext(flags, got, layers, id, k, now, server);
        var child := SynchronizeLayer(layers[k], Some(id));
        assert (Contents(), child) == SyncLayer(flags, now, layers[k], Some(id));
        // Layers cannot be added in themes.
        if !(Database().IsA(id, Theme) && Database().IsA(child, LayerWms)) {
          server := server + [child];
        }
        k := k + 1;
      }
      InsideDone(flags, got, layers, id, Contents(), server);
    }

    /** Finds or adds the item of an element, then does what is inside, then orders its children. */
    method SynchronizeLayer(el: Element, parent: Option<nat>) returns (id: nat)
      requires Indexed(Database()) && (parent.Some? ==> parent.value < |items|)
      modifies this
      ensures Indexed(Database()) && (Contents(), id) == SyncLayer(flags, old(Contents()), el, parent)
      decreases el, 1
    {
      id := GetTreeItem(el, parent);
      var server := SynchronizeInside(el.layers, id);
      OrderIndexed(flags, Database(), id, server);
      OrderChildren(id, server);
    }

    /** The whole run; the report starts from zero. */
    method DoSynchronize(elements: seq<Element>)
      requires Indexed(Database())
      modifies this
      ensures Indexed(Database()) && Contents() == Synchronize(flags, old(Database()), elements)
      ensures itemsFound + themesAdded + groupsAdded + layersAdded == CountAll(elements)
    {
      itemsFound, themesAdded, groupsAdded, layersAdded := 0, 0, 0, 0;
      var k := 0;
      assert elements[0..] == elements;
      while k < |elements|
        invariant 0 <= k <= |elements| && Indexed(Database())
        invariant SyncAll(flags, Contents(), elements[k..]) == Synchronize(flags, old(Database()), elements)
      {
        assert elements[k..][0] == elements[k] && elements[k..][1..] == elements[k + 1..];
        var item := SynchronizeLayer(elements[k], None);
        k := k + 1;
      }
      ReportAddsUp(flags, old(Database()), elements);
    }
  }
}
