/** What the stored orderings of the children say after the ordering step. */
module SyncStored {
  import opened Wrappers
  import opened ChildrenLists
  import opened SyncTree
  import opened SyncFrame

  /** The stored orderings give the order of the children after the ordering step exactly when they gave it before or the
    * step changed the order: it does not number children that are in the right order already. */
  lemma OrderStored(f: Flags, t: Tree, id: nat, server: seq<nat>)
    requires ToOrder(f, t, id) && Indexed(t) && Distinct(t.Children(id))
    requires forall k :: 0 <= k < |server| ==> server[k] < |t.items|
    ensures Order(f, t, id, server).Lists() && Order(f, t, id, server).Has(id)
    ensures StrictlySorted(Order(f, t, id, server).links[id])
       <==> StrictlySorted(t.links[id]) || t.Children(id) != server + External(t.Children(id), server)
  {
    OrderIndexed(f, t, id, server);
    var wanted := server + External(t.Children(id), server);
    if t.Children(id) != wanted {
      ExternalHas(t.Children(id), server);
      SetChildrenStored(t.links[id], wanted);
    }
  }

  /** The links of the first `n` children have the ordering of one of their places among them. */
  ghost predicate NumberedUpTo(links: seq<Link>, children: seq<nat>, n: nat)
    requires n <= |children|
  {
    forall l :: l in links && l.item in children[..n] ==> exists j :: 0 <= j < n && Link(children[j], j * 10) == l
  }

  lemma {:induction false} PlaceAllNumbers(links: seq<Link>, children: seq<nat>, index: nat)
    requires index <= |children| && NumberedUpTo(links, children, index)
    requires Distinct(Items(links))
    ensures NumberedUpTo(PlaceAll(links, children, index), children, |children|)
    decreases |children| - index
  {
    if index < |children| {
      var child := children[index];
      var next := Place(links, child, index * 10);
      CountOfDistinct(links, child);
      PlaceItems(links, child, index * 10);
      assert children[..index + 1] == children[..index] + [child];
      forall l | l in next && l.item in children[..index + 1]
        ensures exists j :: 0 <= j < index + 1 && Link(children[j], j * 10) == l
      {
        var k :| 0 <= k < |next| && next[k] == l;
        if l.item == child {
          assert child !in Items(links) ==> k == |links| by {
            assert k < |links| ==> Items(links)[k] == child;
          }
          assert Link(children[index], index * 10) == l;
        } else {
          assert k < |links| && links[k] == l;
          var j :| 0 <= j < index && Link(children[j], j * 10) == l;
        }
      }
      PlaceAllNumbers(next, children, index + 1);
    }
  }

  lemma SetChildrenStored(links: seq<Link>, children: seq<nat>)
    requires Distinct(Items(links)) && forall x :: x in Items(links) ==> x in children
    ensures StrictlySorted(SetChildrenOrdered(links, children))
  {
    var placed := PlaceAll(links, children, 0);
    PlaceAllNumbers(links, children, 0);
    PlaceAllDistinct(links, children, 0);
    PlaceAllMembers(links, children, 0);
    assert children[..|children|] == children[0..] == children;
    forall l | l in placed ensures exists j :: 0 <= j < |children| && Link(children[j], j * 10) == l {
      var k :| 0 <= k < |placed| && placed[k] == l;
      assert Items(placed)[k] == l.item;
    }
    SortedStrictly(placed, SortLinks(placed));
  }

  /** These layers are not there yet, and have different names. */
  predicate NewLayers(items: seq<Item>, layers: seq<Element>) {
    && (forall k :: 0 <= k < |layers| ==> layers[k].layers == [] && Item(LayerWms, layers[k].name) !in items)
    && forall i, j :: 0 <= i < j < |layers| ==> layers[i].name != layers[j].name
  }

  /** The rows that link them to their group, all with the ordering 0. */
  function Unordered(first: nat, n: nat): (links: seq<Link>)
    ensures |links| == n && forall k :: 0 <= k < n ==> links[k] == Link(first + k, 0)
  {
    seq(n, k requires 0 <= k < n => Link(first + k, 0))
  }

  lemma UnorderedMore(links: seq<Link>, first: nat, n: nat)
    requires n > 0
    ensures links + Unordered(first, n) == links + [Link(first, 0)] + Unordered(first + 1, n - 1)
    ensures Items(Unordered(first, n)) == [first] + Items(Unordered(first + 1, n - 1))
  {
  }

  /** A layer that is not there yet is added under its group, and nothing else is done. */
  lemma NewLayer(f: Flags, s: State, el: Element, group: nat)
    requires Indexed(s.tree) && el.layers == [] && s.tree.IsA(group, Group) && Item(LayerWms, el.name) !in s.tree.items
    ensures var (after, id) := SyncLayer(f, s, el, Some(group));
            after.tree == AddItem(s.tree, Item(LayerWms, el.name), [group]) && id == |s.tree.items|
  {
    assert Find(s.tree.items, Item(LayerWms, el.name)) == None;
    var (got, id) := GetItem(f, s, el, Some(group));
    assert got.tree.IsA(id, LayerWms);
    assert SyncInside(f, got, [], id) == (got, []);
  }

  lemma NewLayerRow(f: Flags, s: State, layers: seq<Element>, group: nat)
    requires Indexed(s.tree) && s.tree.IsA(group, Group) && layers != [] && NewLayers(s.tree.items, layers)
    ensures var (first, child) := SyncLayer(f, s, layers[0], Some(group));
            && first.tree.items == s.tree.items + [Item(LayerWms, layers[0].name)] && child == |s.tree.items|
            && first.tree.links[group] == s.tree.links[group] + [Link(child, 0)]
            && NewLayers(first.tree.items, layers[1..])
  {
    NewLayer(f, s, layers[0], group);
  }

  lemma {:induction false} NewInside(f: Flags, s: State, layers: seq<Element>, group: nat)
    requires Indexed(s.tree) && s.tree.IsA(group, Group) && NewLayers(s.tree.items, layers)
    ensures var (after, server) := SyncInside(f, s, layers, group);
            && after.tree.links[group] == s.tree.links[group] + Unordered(|s.tree.items|, |layers|)
            && server == Items(Unordered(|s.tree.items|, |layers|))
    decreases |layers|
  {
    var n := |s.tree.items|;
    if layers != [] {
      NewLayerRow(f, s, layers, group);
      var first := SyncLayer(f, s, layers[0], Some(group)).0;
      NewInside(f, first, layers[1..], group);
      UnorderedMore(s.tree.links[group], n, |layers|);
    }
  }

  /** Nothing is done when the children are those of the server in their order. */
  lemma InOrder(f: Flags, t: Tree, id: nat, server: seq<nat>)
    requires Indexed(t) && t.Has(id) && t.Children(id) == server
    ensures forall k :: 0 <= k < |server| ==> server[k] < |t.items|
    ensures Order(f, t, id, server) == t
  {
    ExternalNone(server, server);
    assert server + [] == server;
  }

  /** A new group with new layers keeps them in the order of the document, but without an order in the stored rows, also
    * with force_ordering: all the orderings are 0. */
  lemma NewGroupUnordered(f: Flags, s: State, el: Element, parent: nat)
    requires Indexed(s.tree) && s.tree.Has(parent) && Item(Group, el.name) !in s.tree.items
    requires |el.layers| >= 2 && NewLayers(s.tree.items, el.layers)
    ensures var (after, id) := SyncLayer(f, s, el, Some(parent));
            after.tree.links[id] == Unordered(|s.tree.items| + 1, |el.layers|) && !StrictlySorted(after.tree.links[id])
  {
    var (got, id) := GetItem(f, s, el, Some(parent));
    assert Find(s.tree.items, Item(Group, el.name)) == None;
    assert got.tree.items == s.tree.items + [Item(Group, el.name)] && id == |s.tree.items| && got.tree.links[id] == [];
    NewInside(f, got, el.layers, id);
    var (inside, server) := SyncInside(f, got, el.layers, id);
    var links := Unordered(|s.tree.items| + 1, |el.layers|);
    assert [] + links == links;
    InOrder(f, inside.tree, id, server);
    assert links[0].ordering == links[1].ordering;
  }
}
